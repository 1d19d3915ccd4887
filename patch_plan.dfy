/** Planning a patch set from the names in a directory (`get_patch_dict`,
    with the directory listing passed in as a sequence of names). */
module PatchPlan {
  import opened PyText
  import opened PatchNumbers

  datatype Result<T, E> = Success(value: T) | Failure(error: E)

  /** `NoPatches` is the IndexError raised by `sdict[0]` when no name ends in
      `.patch`; `MissingPatches` the RuntimeError for a gap in the numbers. */
  datatype PlanError = NoPatches | MissingPatches

  /** An item of the sorted dictionary: a patch number and a file name. */
  type Entry = (nat, string)

  const PatchSuffix: string := ".patch"

  predicate IsPatchName(name: string)
  {
    EndsWith(name, PatchSuffix)
  }

  /** The dictionary the loop builds from `names`: each `.patch` name is
      stored under its number, a later name replacing an earlier one. */
  function PatchMap(names: seq<string>): map<nat, string>
    decreases |names|
  {
    if names == [] then map[]
    else
      var m := PatchMap(names[..|names| - 1]);
      var name := names[|names| - 1];
      if IsPatchName(name) then m[PatchNum(name) := name] else m
  }

  /** Each entry of the dictionary is a `.patch` name stored under its own number. */
  lemma {:induction false} PatchMapEntries(names: seq<string>)
    ensures forall k :: k in PatchMap(names) ==> IsPatchName(PatchMap(names)[k]) && PatchNum(PatchMap(names)[k]) == k
    decreases |names|
  {
    if names != [] {
      PatchMapEntries(names[..|names| - 1]);
    }
  }

  /** `names[i]` is a `.patch` name with number `k`. */
  predicate PatchWithNumber(names: seq<string>, k: nat, i: int)
  {
    0 <= i < |names| && IsPatchName(names[i]) && PatchNum(names[i]) == k
  }

  /** `names[i]` is the last `.patch` name in `names` with number `k`. */
  predicate LastWithNumber(names: seq<string>, k: nat, i: int)
  {
    && PatchWithNumber(names, k, i)
    && forall j :: i < j < |names| ==> !PatchWithNumber(names, k, j)
  }

  /** The keys of the dictionary are exactly the numbers of the `.patch` names. */
  lemma {:induction false} PatchMapKeys(names: seq<string>, k: nat)
    ensures k in PatchMap(names) <==> exists i :: PatchWithNumber(names, k, i)
    decreases |names|
  {
    if names != [] {
      var init := names[..|names| - 1];
      PatchMapKeys(init, k);
      if PatchWithNumber(names, k, |names| - 1) {
        assert k in PatchMap(names);
      }
      if exists i :: PatchWithNumber(init, k, i) {
        var i :| PatchWithNumber(init, k, i);
        assert PatchWithNumber(names, k, i);
      }
      if exists i :: PatchWithNumber(names, k, i) {
        var i :| PatchWithNumber(names, k, i);
        if i < |names| - 1 {
          assert PatchWithNumber(init, k, i);
        }
      }
    }
  }

  /** Each number is mapped to the last `.patch` name that carries it. */
  lemma {:induction false} PatchMapLastWins(names: seq<string>, k: nat)
    requires k in PatchMap(names)
    ensures exists i :: LastWithNumber(names, k, i) && PatchMap(names)[k] == names[i]
    decreases |names|
  {
    var last := |names| - 1;
    if PatchWithNumber(names, k, last) {
      assert LastWithNumber(names, k, last);
    } else {
      var init := names[..last];
      PatchMapLastWins(init, k);
      var i :| LastWithNumber(init, k, i) && PatchMap(init)[k] == init[i];
      forall j | i < j < |names|
        ensures !PatchWithNumber(names, k, j)
      {
        if j < last {
          assert !PatchWithNumber(init, k, j);
        }
      }
      assert LastWithNumber(names, k, i);
    }
  }

  /** Keys strictly ascending. */
  predicate Ascending(items: seq<Entry>)
  {
    forall i, j :: 0 <= i < j < |items| ==> items[i].0 < items[j].0
  }

  /** `items` holds exactly the pairs of `m`. */
  predicate Lists(items: seq<Entry>, m: map<nat, string>)
  {
    && (forall i :: 0 <= i < |items| ==> items[i].0 in m && m[items[i].0] == items[i].1)
    && (forall k :: k in m ==> exists i :: 0 <= i < |items| && items[i].0 == k)
  }

  /** Inserts a pair with a new key into an ascending sequence of pairs. */
  function Insert(items: seq<Entry>, e: Entry): (r: seq<Entry>)
    requires Ascending(items)
    requires forall i :: 0 <= i < |items| ==> items[i].0 != e.0
    ensures Ascending(r)
    ensures |r| == |items| + 1
    ensures forall x :: x in r <==> x in items || x == e
    decreases |items|
  {
    if items == [] || e.0 < items[0].0 then [e] + items
    else
      var tail := Insert(items[1..], e);
      forall j | 0 <= j < |tail|
        ensures items[0].0 < tail[j].0
      {
        assert tail[j] in tail;
        if tail[j] in items[1..] {
          var t :| 0 <= t < |items[1..]| && items[1..][t] == tail[j];
          assert items[1..][t] == items[t + 1];
        }
      }
      assert forall x :: x in items <==> x == items[0] || x in items[1..];
      [items[0]] + tail
  }

  /** `sorted(dict.items())`: the pairs of `m` in ascending order of key. */
  method SortedItems(m: map<nat, string>) returns (items: seq<Entry>)
    ensures Ascending(items) && Lists(items, m) && |items| == |m.Keys|
  {
    items := [];
    var rest := m.Keys;
    while rest != {}
      invariant rest <= m.Keys
      invariant Ascending(items)
      invariant forall i :: 0 <= i < |items| ==> items[i].0 in m.Keys - rest && m[items[i].0] == items[i].1
      invariant forall k :: k in m.Keys - rest ==> exists i :: 0 <= i < |items| && items[i].0 == k
      invariant |items| + |rest| == |m.Keys|
      decreases |rest|
    {
      var k :| k in rest;
      var items' := Insert(items, (k, m[k]));
      forall i | 0 <= i < |items'|
        ensures items'[i].0 in m.Keys - (rest - {k}) && m[items'[i].0] == items'[i].1
      {
        assert items'[i] in items';
      }
      forall j | j in m.Keys - (rest - {k})
        ensures exists i :: 0 <= i < |items'| && items'[i].0 == j
      {
        if j == k {
          assert (k, m[k]) in items';
        } else {
          assert j in m.Keys - rest;
          var i :| 0 <= i < |items| && items[i].0 == j;
          assert items[i] in items';
        }
      }
      items, rest := items', rest - {k};
    }
    assert m.Keys - rest == m.Keys;
  }

  /** A patch plan for the dictionary `m`: all of `m` in ascending order, the
      numbers consecutive from the first. */
  predicate IsPlan(plan: seq<Entry>, m: map<nat, string>)
  {
    && |plan| > 0
    && (forall i :: 0 <= i < |plan| ==> plan[i].0 == plan[0].0 + i && plan[i].0 in m && plan[i].1 == m[plan[i].0])
    && (forall k :: k in m ==> plan[0].0 <= k < plan[0].0 + |plan|)
  }

  /** Some number between two patch numbers is not itself a patch number. */
  predicate HasGap(ks: set<nat>)
  {
    exists a, b, k :: a in ks && b in ks && a < k < b && k !in ks
  }

  /** `get_patch_dict`: keep the `.patch` names, map numbers to names (a later
      name with the same number wins), sort by number, and fail when there is
      no patch at all or when the numbers are not consecutive. */
  method GetPatchDict(dirFiles: seq<string>) returns (r: Result<seq<Entry>, PlanError>)
    ensures r == Failure(NoPatches) <==> forall i :: 0 <= i < |dirFiles| ==> !IsPatchName(dirFiles[i])
    ensures r == Failure(MissingPatches) <==> PatchMap(dirFiles) != map[] && HasGap(PatchMap(dirFiles).Keys)
    ensures r.Success? ==> IsPlan(r.value, PatchMap(dirFiles))
  {
    var dict := CollectPatches(dirFiles);
    NoPatchNameMeansEmpty(dirFiles);
    ghost var noPatchName := forall i :: 0 <= i < |dirFiles| ==> !IsPatchName(dirFiles[i]);

    var sdict := SortedItems(dict);
    if |sdict| == 0 {
      assert dict.Keys == {};
      assert noPatchName;
      return Failure(NoPatches);
    }
    assert sdict[0].0 in dict;
    assert !noPatchName;
    var firstPatchNum := sdict[0].0;
    var lastPatchNum := sdict[|sdict| - 1].0;
    if |sdict| != lastPatchNum - firstPatchNum + 1 {
      GapWhenCountDiffers(sdict, dict);
      return Failure(MissingPatches);
    }
    PlanWhenCountMatches(sdict, dict);
    PlanHasNoGap(sdict, dict);
    r := Success(sdict);
  }

  /** The loop of lines 48-55: fill the dictionary from the `.patch` names. */
  method CollectPatches(dirFiles: seq<string>) returns (dict: map<nat, string>)
    ensures dict == PatchMap(dirFiles)
  {
    dict := map[];
    for i := 0 to |dirFiles|
      invariant dict == PatchMap(dirFiles[..i])
    {
      assert dirFiles[..i + 1][..i] == dirFiles[..i];
      var fileName := dirFiles[i];
      if !IsPatchName(fileName) {
        continue;
      }
      var num := ParsePatchNum(fileName);
      dict := dict[num := fileName];
    }
    assert dirFiles[..|dirFiles|] == dirFiles;
  }

  /** The dictionary is empty exactly when no name ends in `.patch`. */
  lemma NoPatchNameMeansEmpty(names: seq<string>)
    ensures PatchMap(names) == map[] <==> forall i :: 0 <= i < |names| ==> !IsPatchName(names[i])
  {
    if PatchMap(names) != map[] {
      var k :| k in PatchMap(names);
      PatchMapKeys(names, k);
    }
    forall i | 0 <= i < |names| && IsPatchName(names[i])
      ensures PatchMap(names) != map[]
    {
      PatchMapKeys(names, PatchNum(names[i]));
      assert PatchWithNumber(names, PatchNum(names[i]), i);
    }
  }

  /** In a strictly ascending sequence the keys climb at least one per step. */
  lemma {:induction false} AscendingSpreadUp(items: seq<Entry>, i: nat)
    requires Ascending(items) && i < |items|
    ensures items[0].0 + i <= items[i].0
    decreases i
  {
    if i > 0 {
      AscendingSpreadUp(items, i - 1);
    }
  }

  lemma {:induction false} AscendingSpreadDown(items: seq<Entry>, i: nat)
    requires Ascending(items) && i < |items|
    ensures items[i].0 + (|items| - 1 - i) <= items[|items| - 1].0
    decreases |items| - i
  {
    if i < |items| - 1 {
      AscendingSpreadDown(items, i + 1);
    }
  }

  /** Distinct sorted numbers whose count equals the size of their range are
      exactly consecutive. */
  lemma ConsecutiveWhenCountMatches(items: seq<Entry>)
    requires Ascending(items) && |items| > 0
    requires |items| == items[|items| - 1].0 - items[0].0 + 1
    ensures forall i :: 0 <= i < |items| ==> items[i].0 == items[0].0 + i
  {
    forall i | 0 <= i < |items|
      ensures items[i].0 == items[0].0 + i
    {
      AscendingSpreadUp(items, i);
      AscendingSpreadDown(items, i);
    }
  }

  /** Sorted pairs of a dictionary whose count equals the size of their key
      range form a plan. */
  lemma PlanWhenCountMatches(items: seq<Entry>, m: map<nat, string>)
    requires Ascending(items) && Lists(items, m) && |items| > 0
    requires |items| == items[|items| - 1].0 - items[0].0 + 1
    ensures IsPlan(items, m)
  {
    ConsecutiveWhenCountMatches(items);
    var first := items[0].0;
    assert forall k :: k in m ==> first <= k < first + |items|;
  }

  /** The keys of a plan have no gap. */
  lemma PlanHasNoGap(plan: seq<Entry>, m: map<nat, string>)
    requires IsPlan(plan, m)
    ensures !HasGap(m.Keys)
  {
    forall a, b, k | a in m.Keys && b in m.Keys && a < k < b
      ensures k in m.Keys
    {
      assert plan[k - plan[0].0].0 == k;
    }
  }

  /** When the count differs from the size of the range, two neighbours in
      the sorted sequence are more than one apart, and the number after the
      smaller one is missing. */
  lemma GapWhenCountDiffers(items: seq<Entry>, m: map<nat, string>)
    requires Ascending(items) && Lists(items, m) && |items| > 0
    requires |items| != items[|items| - 1].0 - items[0].0 + 1
    ensures HasGap(m.Keys)
  {
    var i := FirstJump(items, 0);
    var a, b, k := items[i].0, items[i + 1].0, items[i].0 + 1;
    assert a in m.Keys && b in m.Keys && a < k < b && k !in m.Keys;
  }

  /** Finds neighbours at or after `from` that are more than one apart, when the
      keys from `from` on do not reach the last one in steps of one. */
  lemma {:induction false} FirstJump(items: seq<Entry>, from: nat) returns (i: nat)
    requires Ascending(items) && from < |items|
    requires items[|items| - 1].0 != items[from].0 + (|items| - 1 - from)
    ensures from <= i < |items| - 1 && items[i].0 + 1 < items[i + 1].0
    decreases |items| - from
  {
    if items[from + 1].0 == items[from].0 + 1 {
      i := FirstJump(items, from + 1);
    } else {
      i := from;
    }
  }

  /** A plan is determined by its dictionary: planning the same names twice
      gives the same sequence. */
  lemma PlanIsUnique(p: seq<Entry>, q: seq<Entry>, m: map<nat, string>)
    requires IsPlan(p, m) && IsPlan(q, m)
    ensures p == q
  {
    assert p[0].0 in m && q[0].0 in m;
    assert p[0].0 == q[0].0;
    var pl, ql := |p| - 1, |q| - 1;
    assert p[pl].0 == p[0].0 + pl && q[ql].0 == q[0].0 + ql;
    assert |p| == |q|;
    forall i | 0 <= i < |p|
      ensures p[i] == q[i]
    {
    }
  }

  /** A gap: `1.patch` and `3.patch` without `2.patch`. */
  lemma GapExample()
    ensures HasGap(PatchMap(["1.patch", "3.patch"]).Keys)
  {
    var ks := PatchMap(["1.patch", "3.patch"]).Keys;
    KeysOfOneAndThree();
    assert 1 in ks && 3 in ks && 1 < 2 < 3 && 2 !in ks;
  }

  lemma KeysOfOneAndThree()
    ensures PatchMap(["1.patch", "3.patch"]).Keys == {1, 3}
  {
    var names := ["1.patch", "3.patch"];
    NumberOfDigitName(1);
    NumberOfDigitName(3);
    assert IsPatchName("1.patch") && IsPatchName("3.patch");
    assert names[..1] == ["1.patch"] && names[..1][..0] == [];
  }

  /** `d.patch` for a single digit `d` has number `d`. */
  lemma NumberOfDigitName(d: nat)
    requires d < 10
    ensures PatchNum([DigitChar(d)] + ".patch") == d
  {
    PatchNumOfNumeral(0, d, ".patch");
    assert Zeros(0) + Decimal(d) + ".patch" == [DigitChar(d)] + ".patch";
  }

  /** Two names without a leading digit share number 0; the later one wins. */
  lemma SameNumberLastWins()
    ensures PatchMap(["patch.patch", "other.patch"]) == map[0 := "other.patch"]
  {
    var names := ["patch.patch", "other.patch"];
    PatchNumWithoutDigits("patch.patch");
    PatchNumWithoutDigits("other.patch");
    assert names[..1] == ["patch.patch"] && names[..1][..0] == [];
  }
}
