/** The Pearson hash (supertel/lib/hash-functions.c): eight byte lanes, each a walk through one permutation table. */
module Pearson {
  import opened Common

  /** One of sixteen values. */
  function Cell(i: int, c0: Byte, c1: Byte, c2: Byte, c3: Byte, c4: Byte, c5: Byte, c6: Byte, c7: Byte, c8: Byte,
                c9: Byte, c10: Byte, c11: Byte, c12: Byte, c13: Byte, c14: Byte, c15: Byte): Byte {
    match i
    case 0 => c0 case 1 => c1 case 2 => c2 case 3 => c3 case 4 => c4 case 5 => c5 case 6 => c6 case 7 => c7
    case 8 => c8 case 9 => c9 case 10 => c10 case 11 => c11 case 12 => c12 case 13 => c13 case 14 => c14 case _ => c15
  }

  /** `PEARSON_PERMUTATION_TABLE`, sixteen values a row. */
  function Permuted(b: Byte): Byte {
    match b / 16
    case 0 => Cell(b % 16, 98, 6, 85, 150, 36, 23, 112, 164, 135, 207, 169, 5, 26, 64, 165, 219)
    case 1 => Cell(b % 16, 61, 20, 68, 89, 130, 63, 52, 102, 24, 229, 132, 245, 80, 216, 195, 115)
    case 2 => Cell(b % 16, 90, 168, 156, 203, 177, 120, 2, 190, 188, 7, 100, 185, 174, 243, 162, 10)
    case 3 => Cell(b % 16, 237, 18, 253, 225, 8, 208, 172, 244, 255, 126, 101, 79, 145, 235, 228, 121)
    case 4 => Cell(b % 16, 123, 251, 67, 250, 161, 0, 107, 97, 241, 111, 181, 82, 249, 33, 69, 55)
    case 5 => Cell(b % 16, 59, 153, 29, 9, 213, 167, 84, 93, 30, 46, 94, 75, 151, 114, 73, 222)
    case 6 => Cell(b % 16, 197, 96, 210, 45, 16, 227, 248, 202, 51, 152, 252, 125, 81, 206, 215, 186)
    case 7 => Cell(b % 16, 39, 158, 178, 187, 131, 136, 1, 49, 50, 17, 141, 91, 47, 129, 60, 99)
    case 8 => Cell(b % 16, 154, 35, 86, 171, 105, 34, 38, 200, 147, 58, 77, 118, 173, 246, 76, 254)
    case 9 => Cell(b % 16, 133, 232, 196, 144, 198, 124, 53, 4, 108, 74, 223, 234, 134, 230, 157, 139)
    case 10 => Cell(b % 16, 189, 205, 199, 128, 176, 19, 211, 236, 127, 192, 231, 70, 233, 88, 146, 44)
    case 11 => Cell(b % 16, 183, 201, 22, 83, 13, 214, 116, 109, 159, 32, 95, 226, 140, 220, 57, 12)
    case 12 => Cell(b % 16, 221, 31, 209, 182, 143, 92, 149, 184, 148, 62, 113, 65, 37, 27, 106, 166)
    case 13 => Cell(b % 16, 3, 14, 204, 72, 21, 41, 56, 66, 28, 193, 40, 217, 25, 54, 179, 117)
    case 14 => Cell(b % 16, 238, 87, 240, 155, 180, 170, 242, 212, 191, 163, 78, 218, 137, 194, 175, 110)
    case _ => Cell(b % 16, 43, 119, 224, 71, 122, 142, 42, 160, 104, 48, 247, 103, 15, 11, 138, 239)
  }

  /** The inverse of the table. */
  function Restored(b: Byte): Byte {
    match b / 16
    case 0 => Cell(b % 16, 69, 118, 38, 208, 151, 11, 1, 41, 52, 83, 47, 253, 191, 180, 209, 252)
    case 1 => Cell(b % 16, 100, 121, 49, 165, 17, 212, 178, 5, 24, 220, 12, 205, 216, 82, 88, 193)
    case 2 => Cell(b % 16, 185, 77, 133, 129, 4, 204, 134, 112, 218, 213, 246, 240, 175, 99, 89, 124)
    case 3 => Cell(b % 16, 249, 119, 120, 104, 22, 150, 221, 79, 214, 190, 137, 80, 126, 16, 201, 21)
    case 4 => Cell(b % 16, 13, 203, 215, 66, 18, 78, 171, 243, 211, 94, 153, 91, 142, 138, 234, 59)
    case 5 => Cell(b % 16, 28, 108, 75, 179, 86, 2, 130, 225, 173, 19, 32, 123, 197, 87, 90, 186)
    case 6 => Cell(b % 16, 97, 71, 0, 127, 42, 58, 23, 251, 248, 132, 206, 70, 152, 183, 239, 73)
    case 7 => Cell(b % 16, 6, 202, 93, 31, 182, 223, 139, 241, 37, 63, 244, 64, 149, 107, 57, 168)
    case 8 => Cell(b % 16, 163, 125, 20, 116, 26, 144, 156, 8, 117, 236, 254, 159, 188, 122, 245, 196)
    case 9 => Cell(b % 16, 147, 60, 174, 136, 200, 198, 3, 92, 105, 81, 128, 227, 34, 158, 113, 184)
    case 10 => Cell(b % 16, 247, 68, 46, 233, 7, 14, 207, 85, 33, 10, 229, 131, 54, 140, 44, 238)
    case 11 => Cell(b % 16, 164, 36, 114, 222, 228, 74, 195, 176, 199, 43, 111, 115, 40, 160, 39, 232)
    case 12 => Cell(b % 16, 169, 217, 237, 30, 146, 96, 148, 162, 135, 177, 103, 35, 210, 161, 109, 9)
    case 13 => Cell(b % 16, 53, 194, 98, 166, 231, 84, 181, 110, 29, 219, 235, 15, 189, 192, 95, 154)
    case 14 => Cell(b % 16, 242, 51, 187, 101, 62, 25, 157, 170, 145, 172, 155, 61, 167, 48, 224, 255)
    case _ => Cell(b % 16, 226, 72, 230, 45, 55, 27, 141, 250, 102, 76, 67, 65, 106, 50, 143, 56)
  }

  lemma Row0(b: Byte)
    requires b / 16 == 0
    ensures Restored(Permuted(b)) == b
  {
  }

  lemma Row1(b: Byte)
    requires b / 16 == 1
    ensures Restored(Permuted(b)) == b
  {
  }

  lemma Row2(b: Byte)
    requires b / 16 == 2
    ensures Restored(Permuted(b)) == b
  {
  }

  lemma Row3(b: Byte)
    requires b / 16 == 3
    ensures Restored(Permuted(b)) == b
  {
  }

  lemma Row4(b: Byte)
    requires b / 16 == 4
    ensures Restored(Permuted(b)) == b
  {
  }

  lemma Row5(b: Byte)
    requires b / 16 == 5
    ensures Restored(Permuted(b)) == b
  {
  }

  lemma Row6(b: Byte)
    requires b / 16 == 6
    ensures Restored(Permuted(b)) == b
  {
  }

  lemma Row7(b: Byte)
    requires b / 16 == 7
    ensures Restored(Permuted(b)) == b
  {
  }

  lemma Row8(b: Byte)
    requires b / 16 == 8
    ensures Restored(Permuted(b)) == b
  {
  }

  lemma Row9(b: Byte)
    requires b / 16 == 9
    ensures Restored(Permuted(b)) == b
  {
  }

  lemma Row10(b: Byte)
    requires b / 16 == 10
    ensures Restored(Permuted(b)) == b
  {
  }

  lemma Row11(b: Byte)
    requires b / 16 == 11
    ensures Restored(Permuted(b)) == b
  {
  }

  lemma Row12(b: Byte)
    requires b / 16 == 12
    ensures Restored(Permuted(b)) == b
  {
  }

  lemma Row13(b: Byte)
    requires b / 16 == 13
    ensures Restored(Permuted(b)) == b
  {
  }

  lemma Row14(b: Byte)
    requires b / 16 == 14
    ensures Restored(Permuted(b)) == b
  {
  }

  lemma Row15(b: Byte)
    requires b / 16 == 15
    ensures Restored(Permuted(b)) == b
  {
  }

  lemma TableIsInjective(a: Byte, b: Byte)
    ensures Permuted(a) == Permuted(b) ==> a == b
  {
    TableIsInvertible(a);
    TableIsInvertible(b);
  }

  lemma TableIsInvertible(b: Byte)
    ensures Restored(Permuted(b)) == b
  {
    match b / 16
    case 0 => Row0(b);
    case 1 => Row1(b);
    case 2 => Row2(b);
    case 3 => Row3(b);
    case 4 => Row4(b);
    case 5 => Row5(b);
    case 6 => Row6(b);
    case 7 => Row7(b);
    case 8 => Row8(b);
    case 9 => Row9(b);
    case 10 => Row10(b);
    case 11 => Row11(b);
    case 12 => Row12(b);
    case 13 => Row13(b);
    case 14 => Row14(b);
    case _ => Row15(b);
  }

  // ---------------------------------------------------------------- exclusive or

  /** Bit by bit. */
  function Xor(a: nat, b: nat): nat {
    if a == 0 && b == 0 then 0 else 2 * Xor(a / 2, b / 2) + (a % 2 + b % 2) % 2
  }

  lemma {:induction false} XorIsInjective(a: nat, b: nat, c: nat)
    ensures Xor(a, b) == Xor(a, c) ==> b == c
    ensures Xor(b, a) == Xor(c, a) ==> b == c
    decreases a + b + c
  {
    if a + b + c > 0 { XorIsInjective(a / 2, b / 2, c / 2); }
  }

  function Bit(n: nat, i: nat): nat {
    if i == 0 then n % 2 else Bit(n / 2, i - 1)
  }

  /** A bit of the result is set where just one of the operands has it. */
  lemma {:induction false} XorOfBits(a: nat, b: nat, i: nat)
    ensures Bit(Xor(a, b), i) == if Bit(a, i) == Bit(b, i) then 0 else 1
  {
    XorHalves(a, b);
    if i > 0 { XorOfBits(a / 2, b / 2, i - 1); }
  }

  lemma {:induction false} XorHalves(a: nat, b: nat)
    ensures Xor(a, b) / 2 == Xor(a / 2, b / 2) && Xor(a, b) % 2 == if a % 2 == b % 2 then 0 else 1
  {
  }

  function Power(n: nat, base: nat): nat {
    if n == 0 then 1 else base * Power(n - 1, base)
  }

  lemma {:induction false} XorIsBounded(a: nat, b: nat, bits: nat)
    requires a < Power(bits, 2) && b < Power(bits, 2)
    ensures Xor(a, b) < Power(bits, 2)
  {
    if bits > 0 { XorIsBounded(a / 2, b / 2, bits - 1); }
  }

  function XorBytes(a: Byte, b: Byte): Byte {
    assert Power(8, 2) == 256;
    XorIsBounded(a, b, 8);
    Xor(a, b)
  }

  // ---------------------------------------------------------------- a lane

  /** The value that the inner loop reaches for lane `j`. */
  function Lane(m: seq<Byte>, j: nat): Byte
    requires m != []
  {
    if |m| == 1 then Permuted((m[0] + j) % 256)
    else Permuted(XorBytes(Lane(m[..|m| - 1], j), m[|m| - 1]))
  }

  /** The two messages differ at position `p` and nowhere else. */
  ghost predicate DifferAt(m: seq<Byte>, n: seq<Byte>, p: nat) {
    p < |m| == |n| && m[p] != n[p] && m[..p] == n[..p] && m[p + 1..] == n[p + 1..]
  }

  lemma {:induction false} LanesOfBytes(m: seq<Byte>, n: seq<Byte>, j: nat)
    requires |m| == |n| == 1 && m[0] != n[0]
    ensures Lane(m, j) != Lane(n, j)
  {
    SumsDiffer(m[0], n[0], j);
    TableIsInjective((m[0] + j) % 256, (n[0] + j) % 256);
  }

  /** What differs before a lookup differs after it. */
  lemma {:induction false} LanesOfMore(m: seq<Byte>, n: seq<Byte>, j: nat)
    requires |m| > 1 && |n| > 1
    requires XorBytes(Lane(m[..|m| - 1], j), m[|m| - 1]) != XorBytes(Lane(n[..|n| - 1], j), n[|n| - 1])
    ensures Lane(m, j) != Lane(n, j)
  {
    TableIsInjective(XorBytes(Lane(m[..|m| - 1], j), m[|m| - 1]), XorBytes(Lane(n[..|n| - 1], j), n[|n| - 1]));
  }

  /** One changed byte changes every lane. */
  lemma {:induction false} LanesDiffer(m: seq<Byte>, n: seq<Byte>, p: nat, j: nat)
    requires DifferAt(m, n, p)
    ensures Lane(m, j) != Lane(n, j)
  {
    var last := |m| - 1;
    if |m| == 1 {
      LanesOfBytes(m, n, j);
    } else {
      var g, h := Lane(m[..last], j), Lane(n[..last], j);
      if p == last {
        XorIsInjective(g, m[last], n[last]);
      } else {
        assert m[last] == m[p + 1..][last - p - 1] && n[last] == n[p + 1..][last - p - 1];
        ButLast(m, n, p);
        LanesDiffer(m[..last], n[..last], p, j);
        XorIsInjective(m[last], g, h);
      }
      LanesOfMore(m, n, j);
    }
  }

  /** A single byte selects the entries that follow one another in the table, one a lane. */
  lemma {:induction false} LaneOfByte(x: Byte, j: nat)
    ensures Lane([x], j) == Permuted((x + j) % 256)
  {
  }

  /** The first entries of the table, which are the lanes of a message of one zero byte. */
  lemma FirstEntries()
    ensures Permuted(0) == 98 && Permuted(1) == 6 && Permuted(2) == 85 && Permuted(3) == 150
    ensures Permuted(4) == 36 && Permuted(5) == 23 && Permuted(6) == 112 && Permuted(7) == 164
  {
  }

  lemma {:induction false} LanesOfByteApart(m: seq<Byte>, i: nat, j: nat)
    requires |m| == 1 && i < j < 256
    ensures Lane(m, i) != Lane(m, j)
  {
    assert (m[0] + i) % 256 != (m[0] + j) % 256;
    TableIsInjective((m[0] + i) % 256, (m[0] + j) % 256);
  }

  lemma {:induction false} LanesApartStep(m: seq<Byte>, i: nat, j: nat)
    requires |m| > 1 && Lane(m[..|m| - 1], i) != Lane(m[..|m| - 1], j)
    ensures Lane(m, i) != Lane(m, j)
  {
    var g, h, x := Lane(m[..|m| - 1], i), Lane(m[..|m| - 1], j), m[|m| - 1];
    XorIsInjective(x, g, h);
    TableIsInjective(XorBytes(g, x), XorBytes(h, x));
  }

  /** No two lanes of a message are equal. */
  lemma {:induction false} LanesApart(m: seq<Byte>, i: nat, j: nat)
    requires m != [] && i < j < 256
    ensures Lane(m, i) != Lane(m, j)
  {
    if |m| == 1 {
      LanesOfByteApart(m, i, j);
    } else {
      LanesApart(m[..|m| - 1], i, j);
      LanesApartStep(m, i, j);
    }
  }

  lemma SumsDiffer(a: Byte, b: Byte, j: nat)
    ensures (a + j) % 256 == (b + j) % 256 ==> a == b
  {
  }

  lemma ButLast(m: seq<Byte>, n: seq<Byte>, p: nat)
    requires DifferAt(m, n, p) && p < |m| - 1
    ensures DifferAt(m[..|m| - 1], n[..|n| - 1], p)
  {
    var last := |m| - 1;
    assert m[..last][p + 1..] == m[p + 1..][..last - p - 1] && n[..last][p + 1..] == n[p + 1..][..last - p - 1];
    assert m[..last][..p] == m[..p] && n[..last][..p] == n[..p];
  }

  // ---------------------------------------------------------------- the combined value

  const LANES: nat := 8

  /** A number whose base-256 digits, least significant first, are `lanes`. */
  function Combined(lanes: seq<Byte>): nat {
    if lanes == [] then 0 else lanes[0] + 256 * Combined(lanes[1..])
  }

  /** The byte `j` of a number. */
  function ByteOf(h: nat, j: nat): Byte {
    if j == 0 then h % 256 else ByteOf(h / 256, j - 1)
  }

  /** Every lane can be read off the combined value. */
  lemma {:induction false} LanesAreRecovered(lanes: seq<Byte>, j: nat)
    requires j < |lanes|
    ensures ByteOf(Combined(lanes), j) == lanes[j]
  {
    if j > 0 { LanesAreRecovered(lanes[1..], j - 1); }
  }

  lemma {:induction false} DivisionTwice(h: nat, a: nat, b: nat)
    requires a > 0 && b > 0
    ensures a * b > 0 && h / a / b == h / (a * b)
  {
    var q, r := h / a, h % a;
    var p, s := q / b, q % b;
    assert h == q * a + r && q == p * b + s;
    assert q * a == p * (a * b) + s * a;
    ProductGrows(s + 1, b, a);
    assert (s + 1) * a == s * a + a && b * a == a * b;
    DivisionIs(h, a * b, p, s * a + r);
  }

  /** Byte `j` of a number counts 256^j each. */
  lemma {:induction false} ByteOfIs(h: nat, j: nat)
    ensures Power(j, 256) > 0 && ByteOf(h, j) == h / Power(j, 256) % 256
  {
    if j > 0 {
      ByteOfIs(h / 256, j - 1);
      DivisionTwice(h, 256, Power(j - 1, 256));
    }
  }

  lemma {:induction false} OneMoreLane(lanes: seq<Byte>, h: Byte)
    ensures Combined(lanes + [h]) == Combined(lanes) + h * Power(|lanes|, 256)
  {
    if lanes == [] {
      assert (lanes + [h])[1..] == [];
    } else {
      assert (lanes + [h])[1..] == lanes[1..] + [h];
      OneMoreLane(lanes[1..], h);
      Reorder(h, Power(|lanes| - 1, 256));
    }
  }

  lemma Reorder(h: nat, p: nat)
    ensures 256 * (h * p) == h * (256 * p)
  {
  }

  function AllLanes(m: seq<Byte>, count: nat): (lanes: seq<Byte>)
    requires m != []
    ensures |lanes| == count && forall j :: 0 <= j < count ==> lanes[j] == Lane(m, j)
  {
    seq(count, j requires 0 <= j => Lane(m, j))
  }

  /** `hash_pearson`. The lanes do not overlap, so that setting the bits of a shifted lane adds it. The result is the
      bit pattern of the hash. */
  method Hash(m: seq<Byte>) returns (hash: nat)
    requires m != []
    ensures hash == Combined(AllLanes(m, LANES))
  {
    hash := 0;
    ghost var lanes := [];
    var shift: nat := 1;
    for j := 0 to LANES
      invariant shift == Power(j, 256) && lanes == AllLanes(m, j) && hash == Combined(lanes)
    {
      var h := HashLane(m, j);
      OneMoreLane(lanes, h);
      lanes := lanes + [h];
      hash := hash + h * shift;
      shift := 256 * shift;
    }
  }

  /** The inner loop. */
  method HashLane(m: seq<Byte>, j: nat) returns (h: Byte)
    requires m != []
    ensures h == Lane(m, j)
  {
    h := Permuted((m[0] + j) % 256);
    for i := 1 to |m|
      invariant h == Lane(m[..i], j)
    {
      assert m[..i + 1][..i] == m[..i];
      h := Permuted(XorBytes(h, m[i]));
    }
    assert m[..|m|] == m;
  }

  /** Two messages that differ in exactly one byte have hashes that differ in all eight bytes. */
  lemma HashesDifferEverywhere(m: seq<Byte>, n: seq<Byte>, p: nat, j: nat)
    requires DifferAt(m, n, p) && j < LANES
    ensures ByteOf(Combined(AllLanes(m, LANES)), j) != ByteOf(Combined(AllLanes(n, LANES)), j)
  {
    LanesDiffer(m, n, p, j);
    LanesAreRecovered(AllLanes(m, LANES), j);
    LanesAreRecovered(AllLanes(n, LANES), j);
  }

  /** The eight bytes of a hash are pairwise different. */
  lemma HashBytesApart(m: seq<Byte>, i: nat, j: nat)
    requires m != [] && i < j < LANES
    ensures ByteOf(Combined(AllLanes(m, LANES)), i) != ByteOf(Combined(AllLanes(m, LANES)), j)
  {
    LanesApart(m, i, j);
    LanesAreRecovered(AllLanes(m, LANES), i);
    LanesAreRecovered(AllLanes(m, LANES), j);
  }
}
