/** The running sums of the master (supertel/task1/src/master-private.c). */
module MasterSums {
  import opened Common

  /** A decoded response: a signed and an unsigned byte. */
  datatype Reading = Reading(temperature: int, illumination: int)

  predicate ValidReading(r: Reading) {
    -128 <= r.temperature < 128 && 0 <= r.illumination < 256
  }

  datatype Update = Update(ip: nat, reading: Reading)

  datatype Sums = Sums(temperature: int, illumination: int)

  function Plus(s: Sums, r: Reading): Sums { Sums(s.temperature + r.temperature, s.illumination + r.illumination) }
  function Minus(s: Sums, r: Reading): Sums { Sums(s.temperature - r.temperature, s.illumination - r.illumination) }

  /** The registered slaves, in the order of their first response, each with its latest reading. */
  type Slaves = seq<Update>

  predicate ValidSlaves(s: Slaves) {
    && (forall i, j :: 0 <= i < j < |s| ==> s[i].ip != s[j].ip)
    && forall i :: 0 <= i < |s| ==> ValidReading(s[i].reading)
  }

  function Total(s: Slaves): Sums {
    if s == [] then Sums(0, 0) else Plus(Total(s[..|s| - 1]), s[|s| - 1].reading)
  }

  lemma {:induction false} TotalChanged(s: Slaves, i: nat, r: Reading)
    requires i < |s|
    ensures Total(s[i := Update(s[i].ip, r)]) == Plus(Minus(Total(s), s[i].reading), r)
  {
    var u := s[i := Update(s[i].ip, r)];
    if i == |s| - 1 {
      assert u[..i] == s[..i];
    } else {
      assert u[..|s| - 1] == s[..|s| - 1][i := Update(s[i].ip, r)];
      TotalChanged(s[..|s| - 1], i, r);
    }
  }

  /** Totals lie between the number of slaves times any bounds of the readings. */
  lemma {:induction false} TotalBounds(s: Slaves, coldest: int, warmest: int, darkest: int, brightest: int)
    requires forall i :: 0 <= i < |s| ==>
               coldest <= s[i].reading.temperature <= warmest && darkest <= s[i].reading.illumination <= brightest
    ensures coldest * |s| <= Total(s).temperature <= warmest * |s|
    ensures darkest * |s| <= Total(s).illumination <= brightest * |s|
  {
    if s != [] {
      TotalBounds(s[..|s| - 1], coldest, warmest, darkest, brightest);
      Distribute(coldest, |s|);
      Distribute(warmest, |s|);
      Distribute(darkest, |s|);
      Distribute(brightest, |s|);
    }
  }

  lemma Distribute(a: int, n: int)
    ensures a * n == a * (n - 1) + a
  {
  }

  lemma QuotientBounds(s: int, n: int, low: int, high: int)
    requires n > 0 && low * n <= s <= high * n
    ensures low <= s / n <= high
  {
    var q := s / n;
    assert q * n <= s < q * n + n;
    if q < low { ProductGrows(q + 1, low, n); }
    if q > high { ProductGrows(high + 1, q, n); }
  }

  /** The sums as an int32_t and a uint32_t hold them. */
  function Wrapped(s: Sums): Sums {
    Sums((s.temperature + 0x8000_0000) % 0x1_0000_0000 - 0x8000_0000, s.illumination % 0x1_0000_0000)
  }

  // ---------------------------------------------------------------- the averages

  /** The signed sum divided by the unsigned 64-bit count, as an int8_t. */
  function Average(sum: int, count: nat): int
    requires count > 0
  {
    var unsigned := if sum < 0 then 0x1_0000_0000_0000_0000 + sum else sum;
    (unsigned / count + 128) % 256 - 128
  }

  /** The conversion of a negative sum adds 2^64, which the division turns into a multiple of 256. */
  predicate Harmless(sum: int, count: nat)
    requires count > 0
  {
    var w := 0x1_0000_0000_0000_0000;
    sum >= 0 || (w / count + if w % count + sum % count >= count then 1 else 0) % 256 == 0
  }

  /** The quotient of a sum, by the quotients and remainders of its terms. */
  lemma DivisionOfSum(w: int, a: int, n: int)
    requires n > 0
    ensures (w + a) / n == w / n + a / n + if w % n + a % n >= n then 1 else 0
  {
    var q, r := w / n + a / n, w % n + a % n;
    assert w == w / n * n + w % n && a == a / n * n + a % n;
    assert q * n == w / n * n + a / n * n;
    if r >= n {
      assert (q + 1) * n == q * n + n;
      DivisionIs(w + a, n, q + 1, r - n);
    } else {
      DivisionIs(w + a, n, q, r);
    }
  }

  /** The average of the temperatures is their mean, rounded down, if and only if the conversion does no harm. */
  lemma AverageIsMeanExactly(sum: int, count: nat)
    requires count > 0 && -128 * count <= sum <= 127 * count
    ensures Average(sum, count) == sum / count <==> Harmless(sum, count)
  {
    QuotientBounds(sum, count, -128, 127);
    if sum < 0 { DivisionOfSum(0x1_0000_0000_0000_0000, sum, count); }
  }

  /** Three slaves at one degree below zero have an average of 84. */
  lemma ThreeBelowZero()
    ensures Average(-3, 3) == 84 && !Harmless(-3, 3)
  {
  }

  predicate Between(low: Reading, r: Reading, high: Reading) {
    low.temperature <= r.temperature <= high.temperature && low.illumination <= r.illumination <= high.illumination
  }

  lemma {:induction false} AveragesAreBetween(s: Slaves, low: Reading, high: Reading)
    requires s != [] && ValidSlaves(s) && forall i :: 0 <= i < |s| ==> Between(low, s[i].reading, high)
    ensures low.illumination <= Total(s).illumination / |s| <= high.illumination
            && 0 <= Total(s).illumination / |s| < 256
    ensures Harmless(Total(s).temperature, |s|) ==>
              low.temperature <= Average(Total(s).temperature, |s|) <= high.temperature
  {
    TotalBounds(s, low.temperature, high.temperature, low.illumination, high.illumination);
    TotalBounds(s, -128, 127, 0, 255);
    QuotientBounds(Total(s).illumination, |s|, low.illumination, high.illumination);
    QuotientBounds(Total(s).illumination, |s|, 0, 255);
    QuotientBounds(Total(s).temperature, |s|, low.temperature, high.temperature);
    AverageIsMeanExactly(Total(s).temperature, |s|);
  }

  class Master {
    var sum: Sums                 // an int32_t and a uint32_t
    var avgTemperature: int       // an int8_t
    var avgIllumination: int      // a uint8_t
    var slaves: Slaves

    /** The sums are those of the latest readings. */
    ghost predicate Valid()
      reads this
    {
      ValidSlaves(slaves) && sum == Total(slaves) && |slaves| < 0x100_0000
    }

    constructor ()
      ensures Valid() && slaves == []
    {
      sum, avgTemperature, avgIllumination, slaves := Sums(0, 0), 0, 0, [];
    }

    method Find(ip: nat) returns (i: nat)
      ensures i <= |slaves| && (i < |slaves| ==> slaves[i].ip == ip) && forall j :: 0 <= j < i ==> slaves[j].ip != ip
    {
      i := 0;
      while i < |slaves| && slaves[i].ip != ip
        invariant i <= |slaves| && forall j :: 0 <= j < i ==> slaves[j].ip != ip
      {
        i := i + 1;
      }
    }

    /** `master_update_slave`: a new slave starts from a reading of zeros; 32-bit sums are exact for fewer than
        2^24 slaves. */
    method UpdateSlave(u: Update)
      requires Valid() && ValidReading(u.reading) && |slaves| + 1 < 0x100_0000
      modifies this
      ensures Valid() && slaves == Recorded(old(slaves), u)
    {
      var i := Find(u.ip);
      RecordedAt(slaves, u, i);
      if i == |slaves| {
        RegisteredKeeps(slaves, u.ip);
        slaves := slaves + [Update(u.ip, Reading(0, 0))];
      }
      UpdateIsExact(slaves, i, u);
      var known := slaves[i].reading;
      sum := Wrapped(Minus(sum, known));
      slaves := slaves[i := u];
      sum := Wrapped(Plus(sum, u.reading));
    }

    /** `master_calculate_averages`: the average of the illuminations lies between any bounds of the latest readings;
        that of the temperatures does where the conversion of the sum to an unsigned number does no harm. */
    method CalculateAverages(ghost low: Reading, ghost high: Reading) returns (changed: bool)
      requires Valid() && forall i :: 0 <= i < |slaves| ==> Between(low, slaves[i].reading, high)
      modifies `avgTemperature, `avgIllumination
      ensures Valid() && (changed <==> avgTemperature != old(avgTemperature) || avgIllumination != old(avgIllumination))
      ensures slaves == [] ==> avgTemperature == avgIllumination == 0
      ensures slaves != [] ==>
                && avgTemperature == Average(Total(slaves).temperature, |slaves|)
                && avgIllumination == Total(slaves).illumination / |slaves|
                && low.illumination <= avgIllumination <= high.illumination
                && (Harmless(Total(slaves).temperature, |slaves|) ==>
                    low.temperature <= avgTemperature <= high.temperature)
    {
      var before := (avgTemperature, avgIllumination);
      if |slaves| == 0 {
        avgTemperature, avgIllumination := 0, 0;
      } else {
        AveragesAreBetween(slaves, low, high);
        avgTemperature := Average(sum.temperature, |slaves|);
        avgIllumination := sum.illumination / |slaves| % 256;
      }
      changed := !(before == (avgTemperature, avgIllumination));
    }

    /** Every history of responses: an entry for each address that has responded, with its latest reading, and the
        sums of those readings. */
    method Run(updates: seq<Update>)
      requires Valid() && slaves == [] && |Addresses(updates)| < 0x100_0000 - 1
      requires forall k :: 0 <= k < |updates| ==> ValidReading(updates[k].reading)
      modifies this
      ensures Valid() && sum == Total(slaves)
      ensures forall ip :: Lookup(slaves, ip) == Latest(updates, ip)
      ensures |slaves| == |Addresses(updates)|
    {
      for k := 0 to |updates|
        invariant Valid()
        invariant forall ip :: Lookup(slaves, ip) == Latest(updates[..k], ip)
      {
        ghost var before := slaves;
        CountIsExact(slaves, updates[..k]);
        SubsetIsSmaller(Addresses(updates[..k]), Addresses(updates));
        UpdateSlave(updates[k]);
        assert updates[..k + 1][..k] == updates[..k];
        forall ip ensures Lookup(slaves, ip) == Latest(updates[..k + 1], ip) {
          LookupRecorded(before, updates[k], ip);
        }
      }
      assert updates[..|updates|] == updates;
      CountIsExact(slaves, updates);
    }
  }

  // ---------------------------------------------------------------- facts about an update

  /** `u` replaces the entry of its address, or is added. */
  function Recorded(s: Slaves, u: Update): (r: Slaves)
    ensures |s| <= |r| <= |s| + 1
  {
    if s == [] then [u]
    else if s[0].ip == u.ip then [u] + s[1..]
    else [s[0]] + Recorded(s[1..], u)
  }

  lemma {:induction false} RecordedAt(s: Slaves, u: Update, i: nat)
    requires i <= |s| && (i < |s| ==> s[i].ip == u.ip) && forall j :: 0 <= j < i ==> s[j].ip != u.ip
    ensures Recorded(s, u) == if i < |s| then s[i := u] else (s + [Update(u.ip, Reading(0, 0))])[i := u]
  {
    if s != [] && i > 0 { RecordedAt(s[1..], u, i - 1); }
  }

  lemma {:induction false} RegisteredKeeps(s: Slaves, ip: nat)
    requires ValidSlaves(s) && forall j :: 0 <= j < |s| ==> s[j].ip != ip
    ensures var t := s + [Update(ip, Reading(0, 0))]; ValidSlaves(t) && Total(t) == Total(s)
  {
    assert (s + [Update(ip, Reading(0, 0))])[..|s|] == s;
  }

  lemma {:induction false} ReplaceKeeps(s: Slaves, i: nat, r: Reading)
    requires ValidSlaves(s) && i < |s| && ValidReading(r)
    ensures ValidSlaves(s[i := Update(s[i].ip, r)])
  {
  }

  lemma {:induction false} Fits(s: Slaves)
    requires ValidSlaves(s) && |s| < 0x100_0000
    ensures Wrapped(Total(s)) == Total(s)
  {
    TotalBounds(s, -128, 127, 0, 255);
  }

  /** Taking the old reading out and the new one in, with wrap-around, gives the sums of the new readings. */
  lemma {:induction false} UpdateIsExact(s: Slaves, i: nat, u: Update)
    requires ValidSlaves(s) && |s| < 0x100_0000 && i < |s| && s[i].ip == u.ip && ValidReading(u.reading)
    ensures ValidSlaves(s[i := u])
    ensures Wrapped(Plus(Wrapped(Minus(Total(s), s[i].reading)), u.reading)) == Total(s[i := u])
  {
    var cleared := s[i := Update(s[i].ip, Reading(0, 0))];
    assert u == Update(s[i].ip, u.reading);
    ReplaceKeeps(s, i, u.reading);
    ReplaceKeeps(s, i, Reading(0, 0));
    TotalChanged(s, i, u.reading);
    TotalChanged(s, i, Reading(0, 0));
    assert Total(cleared) == Minus(Total(s), s[i].reading);
    Fits(cleared);
    Fits(s[i := u]);
  }

  /** The latest reading of an address. */
  function Lookup(s: Slaves, ip: nat): Option<Reading> {
    if s == [] then None else if s[0].ip == ip then Some(s[0].reading) else Lookup(s[1..], ip)
  }

  function Latest(updates: seq<Update>, ip: nat): Option<Reading> {
    if updates == [] then None
    else if updates[|updates| - 1].ip == ip then Some(updates[|updates| - 1].reading)
    else Latest(updates[..|updates| - 1], ip)
  }

  lemma {:induction false} LookupRecorded(s: Slaves, u: Update, ip: nat)
    ensures Lookup(Recorded(s, u), ip) == if ip == u.ip then Some(u.reading) else Lookup(s, ip)
  {
    if s != [] {
      assert Recorded(s, u)[1..] == if s[0].ip == u.ip then s[1..] else Recorded(s[1..], u);
      LookupRecorded(s[1..], u, ip);
    }
  }

  function Addresses(s: seq<Update>): set<nat> { set u | u in s :: u.ip }

  lemma {:induction false} LookupFinds(s: Slaves, ip: nat)
    ensures Lookup(s, ip).Some? <==> ip in Addresses(s)
  {
    if s != [] {
      assert s == [s[0]] + s[1..];
      LookupFinds(s[1..], ip);
    }
  }

  lemma {:induction false} LatestFinds(updates: seq<Update>, ip: nat)
    ensures Latest(updates, ip).Some? <==> ip in Addresses(updates)
  {
    if updates != [] {
      assert updates == updates[..|updates| - 1] + [updates[|updates| - 1]];
      LatestFinds(updates[..|updates| - 1], ip);
    }
  }

  lemma {:induction false} OneEntryEach(s: Slaves)
    requires forall i, j :: 0 <= i < j < |s| ==> s[i].ip != s[j].ip
    ensures |Addresses(s)| == |s|
  {
    if s != [] {
      var head, last := s[..|s| - 1], s[|s| - 1];
      OneEntryEach(head);
      assert s == head + [last];
      assert Addresses(s) == Addresses(head) + {last.ip};
    }
  }

  /** There are as many entries as addresses that have responded. */
  lemma {:induction false} CountIsExact(s: Slaves, updates: seq<Update>)
    requires ValidSlaves(s) && forall ip :: Lookup(s, ip) == Latest(updates, ip)
    ensures |s| == |Addresses(updates)|
  {
    forall ip ensures ip in Addresses(s) <==> ip in Addresses(updates) {
      LookupFinds(s, ip);
      LatestFinds(updates, ip);
    }
    assert Addresses(s) == Addresses(updates);
    OneEntryEach(s);
  }

  lemma {:induction false} SubsetIsSmaller(a: set<nat>, b: set<nat>)
    requires a <= b
    ensures |a| <= |b|
  {
    assert b == a + (b - a);
  }

  // ---------------------------------------------------------------- what the definitions above amount to

  /** The total of one entry is its reading, and totals of parts add up. */
  lemma {:induction false} TotalOfParts(a: Slaves, b: Slaves)
    ensures Total(a + b) ==
            Sums(Total(a).temperature + Total(b).temperature, Total(a).illumination + Total(b).illumination)
    ensures |b| == 1 ==> Total(b) == Sums(b[0].reading.temperature, b[0].reading.illumination)
    decreases |b|
  {
    if b == [] {
      assert a + b == a;
    } else {
      assert (a + b)[..|a + b| - 1] == a + b[..|b| - 1];
      TotalOfParts(a, b[..|b| - 1]);
    }
  }

  /** The latest reading of an address is that of the last response from it. */
  lemma {:induction false} LatestIs(updates: seq<Update>, ip: nat, r: Reading)
    ensures Latest(updates, ip) == Some(r) <==>
            exists k :: 0 <= k < |updates| && updates[k] == Update(ip, r)
                        && forall j :: k < j < |updates| ==> updates[j].ip != ip
    ensures Latest(updates, ip) == None <==> forall j :: 0 <= j < |updates| ==> updates[j].ip != ip
  {
    if updates != [] {
      var head, last := updates[..|updates| - 1], |updates| - 1;
      LatestIs(head, ip, r);
      if updates[last].ip != ip {
        assert forall j :: 0 <= j < last ==> head[j] == updates[j];
      }
    }
  }

  /** The entry of an address has its reading. */
  lemma {:induction false} LookupIs(s: Slaves, ip: nat, r: Reading)
    requires ValidSlaves(s)
    ensures Lookup(s, ip) == Some(r) <==> Update(ip, r) in s
  {
    if s != [] {
      assert s == [s[0]] + s[1..];
      LookupIs(s[1..], ip, r);
      assert forall k :: 0 <= k < |s[1..]| ==> s[1..][k] == s[k + 1] && s[k + 1].ip != s[0].ip;
    }
  }
}
