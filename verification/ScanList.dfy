/** WiFiManager::getScanItemOut: the order in which scanned networks are listed. */
module ScanList {

  /** What the last scan found. `stray` is what SSID() answers for an index that
      is no network, which the code asks of entries it has already struck out. */
  datatype Scan = Scan(rssi: seq<int>, ssid: seq<string>, stray: string)

  predicate Valid(s: Scan) {
    |s.rssi| == |s.ssid|
  }

  function Ssid(s: Scan, i: int): string
    requires Valid(s)
  {
    if 0 <= i < |s.ssid| then s.ssid[i] else s.stray
  }

  function Identity(n: nat): seq<int> {
    seq(n, i => i)
  }

  /** Indices of networks, each once. */
  ghost predicate Listing(s: Scan, a: seq<int>) {
    multiset(a) == multiset(Identity(|s.rssi|)) && forall i :: 0 <= i < |a| ==> 0 <= a[i] < |s.rssi|
  }

  /** Strongest first. */
  ghost predicate Ranked(s: Scan, a: seq<int>)
    requires forall i :: 0 <= i < |a| ==> 0 <= a[i] < |s.rssi|
  {
    forall i, j :: 0 <= i < j < |a| ==> s.rssi[a[i]] >= s.rssi[a[j]]
  }

  method SortByRssi(s: Scan, indices: array<int>)
    requires Valid(s) && indices.Length == |s.rssi|
    modifies indices
    ensures Listing(s, indices[..]) && Ranked(s, indices[..])
  {
    var n := indices.Length;
    for i := 0 to n
      invariant forall k :: 0 <= k < i ==> indices[k] == k
    {
      indices[i] := i;
    }
    assert indices[..] == Identity(n);
    var i := 0;
    while i < n
      invariant 0 <= i <= n && Listing(s, indices[..])
      invariant forall k, l :: 0 <= k < i && k < l < n ==> s.rssi[indices[k]] >= s.rssi[indices[l]]
    {
      SelectStrongest(s, indices, i);
      i := i + 1;
    }
  }

  method Swap(ghost s: Scan, a: array<int>, i: nat, j: nat)
    requires i < j < a.Length && Listing(s, a[..])
    modifies a
    ensures a[i] == old(a[j]) && a[j] == old(a[i])
    ensures forall k :: 0 <= k < a.Length && k != i && k != j ==> a[k] == old(a[k])
    ensures Listing(s, a[..])
  {
    a[i], a[j] := a[j], a[i];
  }

  /** The inner loop brings the strongest of the rest to place i. */
  method SelectStrongest(s: Scan, indices: array<int>, i: nat)
    requires Valid(s) && indices.Length == |s.rssi| && i < indices.Length && Listing(s, indices[..])
    requires forall k, l :: 0 <= k < i && k < l < indices.Length ==> s.rssi[indices[k]] >= s.rssi[indices[l]]
    modifies indices
    ensures Listing(s, indices[..])
    ensures forall k, l :: 0 <= k <= i && k < l < indices.Length ==> s.rssi[indices[k]] >= s.rssi[indices[l]]
  {
    var n := indices.Length;
    var j := i + 1;
    while j < n
      invariant i < j <= n && Listing(s, indices[..])
      invariant forall k, l :: 0 <= k < i && k < l < n ==> s.rssi[indices[k]] >= s.rssi[indices[l]]
      invariant forall l :: i < l < j ==> s.rssi[indices[i]] >= s.rssi[indices[l]]
    {
      if s.rssi[indices[j]] > s.rssi[indices[i]] {
        Swap(s, indices, i, j);
      }
      j := j + 1;
    }
  }

  /** One of the first i entries has this name. */
  predicate Seen(s: Scan, a: seq<int>, name: string, i: nat)
    requires Valid(s) && i <= |a|
  {
    i > 0 && (Ssid(s, a[i - 1]) == name || Seen(s, a, name, i - 1))
  }

  /** The listing with every repeated name struck out. */
  function Struck(s: Scan, a: seq<int>, k: nat, i: nat): int
    requires Valid(s) && k < |a|
  {
    if Seen(s, a, Ssid(s, a[k]), if i < k then i else k) then -1 else a[k]
  }

  method RemoveDuplicates(s: Scan, indices: array<int>)
    requires Valid(s)
    requires forall k :: 0 <= k < indices.Length ==> 0 <= indices[k] < |s.rssi|
    modifies indices
    ensures forall k :: 0 <= k < indices.Length ==> indices[k] == Struck(s, old(indices[..]), k, k)
  {
    ghost var a := indices[..];
    var n := indices.Length;
    var i := 0;
    while i < n
      invariant 0 <= i <= n
      invariant forall k :: 0 <= k < n ==> indices[k] == Struck(s, a, k, i)
    {
      if indices[i] != -1 {
        StrikeRepeats(s, a, indices, i);
      } else {
        AlreadyStruck(s, a, i);
      }
      i := i + 1;
    }
  }

  /** The inner loop strikes out the later entries named like entry i. */
  method StrikeRepeats(s: Scan, ghost a: seq<int>, indices: array<int>, i: nat)
    requires Valid(s) && i < indices.Length == |a| && indices[i] == a[i]
    requires forall k :: 0 <= k < |a| ==> indices[k] == Struck(s, a, k, i)
    modifies indices
    ensures forall k :: 0 <= k < |a| ==> indices[k] == Struck(s, a, k, i + 1)
  {
    var cssid := Ssid(s, indices[i]);
    var j := i + 1;
    while j < indices.Length
      invariant i < j <= |a|
      invariant forall k :: 0 <= k < j ==> indices[k] == Struck(s, a, k, i + 1)
      invariant forall k :: j <= k < |a| ==> indices[k] == Struck(s, a, k, i)
    {
      if cssid == Ssid(s, indices[j]) {
        indices[j] := -1;
      }
      j := j + 1;
    }
  }

  /** Later entries named like a struck one are struck already. */
  lemma AlreadyStruck(s: Scan, a: seq<int>, i: nat)
    requires Valid(s) && i < |a| && 0 <= a[i] && Struck(s, a, i, i) == -1
    ensures forall k :: 0 <= k < |a| ==> Struck(s, a, k, i) == Struck(s, a, k, i + 1)
  {
    forall k | 0 <= k < |a|
      ensures Struck(s, a, k, i) == Struck(s, a, k, i + 1)
    {
      if i < k && Ssid(s, a[i]) == Ssid(s, a[k]) {
        assert Seen(s, a, Ssid(s, a[i]), i);
      }
    }
  }

  // ---------------------------------------------------------------- the list

  /** Sorting, and then striking out when duplicates are not wanted. */
  method Arrange(s: Scan, removeDuplicates: bool) returns (indices: array<int>)
    requires Valid(s)
    ensures fresh(indices) && indices.Length == |s.rssi|
    ensures !removeDuplicates ==> Listing(s, indices[..]) && Ranked(s, indices[..])
    ensures removeDuplicates ==> Shown(s, indices[..])
  {
    indices := new int[|s.rssi|];
    SortByRssi(s, indices);
    if removeDuplicates {
      ghost var a := indices[..];
      RemoveDuplicates(s, indices);
      ShownWhenStruck(s, a, indices[..]);
    }
  }

  predicate Survives(r: seq<int>, k: int) {
    0 <= k < |r| && r[k] != -1
  }

  /** The networks listed: strongest first, one for every name in the scan, and
      it the strongest of that name. */
  ghost predicate Shown(s: Scan, r: seq<int>)
    requires Valid(s)
  {
    && (forall k :: Survives(r, k) ==> 0 <= r[k] < |s.rssi|)
    && (forall k, l :: Survives(r, k) && Survives(r, l) && k < l ==> s.rssi[r[k]] >= s.rssi[r[l]] && s.ssid[r[k]] != s.ssid[r[l]])
    && (forall x :: 0 <= x < |s.rssi| ==> Represented(s, r, x))
  }

  /** A network of the same name, and no weaker, is listed. */
  ghost predicate Represented(s: Scan, r: seq<int>, x: nat)
    requires Valid(s) && x < |s.rssi|
    requires forall k :: Survives(r, k) ==> 0 <= r[k] < |s.rssi|
  {
    exists k :: Survives(r, k) && s.ssid[r[k]] == s.ssid[x] && s.rssi[r[k]] >= s.rssi[x]
  }

  lemma {:induction false} SeenWhere(s: Scan, a: seq<int>, name: string, i: nat)
    requires Valid(s) && i <= |a|
    ensures Seen(s, a, name, i) <==> exists j :: 0 <= j < i && Ssid(s, a[j]) == name
  {
    if i > 0 {
      SeenWhere(s, a, name, i - 1);
    }
  }

  /** The first entry of each name survives. */
  lemma {:induction false} FirstSurvives(s: Scan, a: seq<int>, r: seq<int>, x: nat) returns (k: nat)
    requires Valid(s) && |r| == |a| && x < |a|
    requires forall i :: 0 <= i < |a| ==> r[i] == Struck(s, a, i, i) && 0 <= a[i] < |s.rssi|
    ensures k <= x && r[k] == a[k] != -1 && Ssid(s, a[k]) == Ssid(s, a[x])
  {
    SeenWhere(s, a, Ssid(s, a[x]), x);
    if Seen(s, a, Ssid(s, a[x]), x) {
      var j :| 0 <= j < x && Ssid(s, a[j]) == Ssid(s, a[x]);
      k := FirstSurvives(s, a, r, j);
    } else {
      k := x;
    }
  }

  ghost predicate StruckFrom(s: Scan, a: seq<int>, r: seq<int>) {
    && Valid(s) && Listing(s, a) && Ranked(s, a) && |r| == |a|
    && forall k :: 0 <= k < |a| ==> r[k] == Struck(s, a, k, k)
  }

  lemma SurvivorsApart(s: Scan, a: seq<int>, r: seq<int>, k: int, l: int)
    requires StruckFrom(s, a, r) && Survives(r, k) && Survives(r, l) && k < l
    ensures s.rssi[r[k]] >= s.rssi[r[l]] && s.ssid[r[k]] != s.ssid[r[l]]
  {
    SeenWhere(s, a, Ssid(s, a[l]), l);
  }

  lemma Occurs(s: Scan, a: seq<int>, x: int) returns (i: nat)
    requires Listing(s, a) && 0 <= x < |s.rssi|
    ensures i < |a| && a[i] == x
  {
    assert Identity(|s.rssi|)[x] == x;
    assert x in multiset(Identity(|s.rssi|));
    assert x in a;
    i :| 0 <= i < |a| && a[i] == x;
  }

  /** Whatever name network x has, a network of that name is listed, and none
      of that name is stronger. */
  lemma EveryNameSurvives(s: Scan, a: seq<int>, r: seq<int>, x: int) returns (k: nat)
    requires StruckFrom(s, a, r) && 0 <= x < |s.rssi|
    ensures Survives(r, k) && 0 <= r[k] < |s.rssi| && s.ssid[r[k]] == s.ssid[x] && s.rssi[r[k]] >= s.rssi[x]
  {
    var i := Occurs(s, a, x);
    k := FirstSurvives(s, a, r, i);
  }

  lemma ShownWhenStruck(s: Scan, a: seq<int>, r: seq<int>)
    requires StruckFrom(s, a, r)
    ensures Shown(s, r)
  {
    forall k | Survives(r, k)
      ensures 0 <= r[k] < |s.rssi|
    {
      assert r[k] == Struck(s, a, k, k);
    }
    forall k, l | Survives(r, k) && Survives(r, l) && k < l
      ensures s.rssi[r[k]] >= s.rssi[r[l]] && s.ssid[r[k]] != s.ssid[r[l]]
    {
      SurvivorsApart(s, a, r, k, l);
    }
    forall x | 0 <= x < |s.rssi|
      ensures Represented(s, r, x)
    {
      var k := EveryNameSurvives(s, a, r, x);
    }
  }
}
