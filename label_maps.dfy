/**
 * The four label maps of a hub, as `processConfig` writes them: for every
 * entry of a list, in list order, `activities[id] = norm(label)` and
 * `activities_reverse[norm(label)] = id` (and likewise for devices).  A later
 * entry overwrites an earlier one silently.
 */
module LabelMaps {
  import opened Normalise

  /** An activity or a device of the capability descriptor: its `id` and its raw `label`. */
  datatype Entry = Entry(id: string, rawLabel: string)

  /** Forward maps go from id to normalised label, reverse maps the other way. */
  datatype Direction = Forward | Reverse

  function KeyOf(d: Direction, e: Entry): string {
    if d.Forward? then e.id else Norm(e.rawLabel)
  }

  function ValueOf(d: Direction, e: Entry): string {
    if d.Forward? then Norm(e.rawLabel) else e.id
  }

  /** `base` after the writes of `es`, first entry first. */
  function Build(d: Direction, base: map<string, string>, es: seq<Entry>): (r: map<string, string>)
    ensures base.Keys <= r.Keys
    ensures es != [] ==> KeyOf(d, es[|es| - 1]) in r && r[KeyOf(d, es[|es| - 1])] == ValueOf(d, es[|es| - 1])
    decreases |es|
  {
    if es == [] then base
    else
      var e := es[|es| - 1];
      Build(d, base, es[..|es| - 1])[KeyOf(d, e) := ValueOf(d, e)]
  }

  /** Writing one more entry of a list. */
  lemma BuildStep(d: Direction, base: map<string, string>, es: seq<Entry>, i: int)
    requires 0 <= i < |es|
    ensures Build(d, base, es[..i + 1]) == Build(d, base, es[..i])[KeyOf(d, es[i]) := ValueOf(d, es[i])]
  {
    assert es[..i + 1][..i] == es[..i];
  }

  /** The keys after the writes are the old keys plus one key per entry, nothing else. */
  lemma {:induction false} BuildKeys(d: Direction, base: map<string, string>, es: seq<Entry>, k: string)
    ensures k in Build(d, base, es) <==> k in base || exists j :: 0 <= j < |es| && KeyOf(d, es[j]) == k
    decreases |es|
  {
    if es != [] {
      var init := es[..|es| - 1];
      BuildKeys(d, base, init, k);
      if exists j :: 0 <= j < |init| && KeyOf(d, init[j]) == k {
        var j :| 0 <= j < |init| && KeyOf(d, init[j]) == k;
        assert KeyOf(d, es[j]) == k;
      }
      if exists j :: 0 <= j < |es| && KeyOf(d, es[j]) == k {
        var j :| 0 <= j < |es| && KeyOf(d, es[j]) == k;
        if j < |init| {
          assert KeyOf(d, init[j]) == k;
        }
      }
    }
  }

  /** Last writer wins: the value under a key comes from the last entry with that key. */
  lemma {:induction false} BuildLastWriter(d: Direction, base: map<string, string>, es: seq<Entry>, j: int)
    requires 0 <= j < |es|
    requires forall k :: j < k < |es| ==> KeyOf(d, es[k]) != KeyOf(d, es[j])
    ensures KeyOf(d, es[j]) in Build(d, base, es)
    ensures Build(d, base, es)[KeyOf(d, es[j])] == ValueOf(d, es[j])
    decreases |es|
  {
    if j < |es| - 1 {
      var init := es[..|es| - 1];
      assert init[j] == es[j];
      forall k | j < k < |init| ensures KeyOf(d, init[k]) != KeyOf(d, init[j]) {
        assert init[k] == es[k];
      }
      BuildLastWriter(d, base, init, j);
    }
  }

  /** A key that no entry writes keeps its old binding, or stays absent. */
  lemma {:induction false} BuildUntouched(d: Direction, base: map<string, string>, es: seq<Entry>, k: string)
    requires forall j :: 0 <= j < |es| ==> KeyOf(d, es[j]) != k
    ensures k in Build(d, base, es) <==> k in base
    ensures k in base ==> Build(d, base, es)[k] == base[k]
    decreases |es|
  {
    if es != [] {
      var init := es[..|es| - 1];
      forall j | 0 <= j < |init| ensures KeyOf(d, init[j]) != k {
        assert init[j] == es[j];
      }
      BuildUntouched(d, base, init, k);
    }
  }

  /** Starting from an empty map, the keys are exactly the keys the entries write. */
  lemma FreshKeys(d: Direction, es: seq<Entry>)
    ensures Build(d, map[], es).Keys == set j | 0 <= j < |es| :: KeyOf(d, es[j])
  {
    forall k ensures k in Build(d, map[], es) <==> k in set j | 0 <= j < |es| :: KeyOf(d, es[j]) {
      BuildKeys(d, map[], es, k);
    }
  }

  /** Starting from empty maps, the forward keys are exactly the ids, the reverse keys exactly the normalised labels. */
  lemma FreshMapKeys(es: seq<Entry>)
    ensures Build(Forward, map[], es).Keys == set j | 0 <= j < |es| :: es[j].id
    ensures Build(Reverse, map[], es).Keys == set j | 0 <= j < |es| :: Norm(es[j].rawLabel)
  {
    FreshKeys(Forward, es);
    FreshKeys(Reverse, es);
    assert (set j | 0 <= j < |es| :: KeyOf(Forward, es[j])) == set j | 0 <= j < |es| :: es[j].id;
    assert (set j | 0 <= j < |es| :: KeyOf(Reverse, es[j])) == set j | 0 <= j < |es| :: Norm(es[j].rawLabel);
  }

  /** Every value written is a topic-safe segment or an id taken from the list. */
  lemma FreshMapValues(es: seq<Entry>)
    ensures forall k :: k in Build(Forward, map[], es) ==> NoSep(Build(Forward, map[], es)[k])
    ensures forall k :: k in Build(Reverse, map[], es) ==>
      exists j :: 0 <= j < |es| && es[j].id == Build(Reverse, map[], es)[k] && Norm(es[j].rawLabel) == k
  {
    forall k | k in Build(Forward, map[], es) ensures NoSep(Build(Forward, map[], es)[k]) {
      var j := LastWith(Forward, es, k);
      BuildLastWriter(Forward, map[], es, j);
      NormSepFree(es[j].rawLabel);
    }
    forall k | k in Build(Reverse, map[], es)
      ensures exists j :: 0 <= j < |es| && es[j].id == Build(Reverse, map[], es)[k] && Norm(es[j].rawLabel) == k
    {
      var j := LastWith(Reverse, es, k);
      BuildLastWriter(Reverse, map[], es, j);
    }
  }

  /** The index of the last entry writing key `k` into a fresh map. */
  lemma {:induction false} LastWith(d: Direction, es: seq<Entry>, k: string) returns (j: int)
    requires k in Build(d, map[], es)
    ensures 0 <= j < |es| && KeyOf(d, es[j]) == k
    ensures forall i :: j < i < |es| ==> KeyOf(d, es[i]) != k
    decreases |es|
  {
    assert es != [];
    var init, e := es[..|es| - 1], es[|es| - 1];
    var key := KeyOf(d, e);
    if key == k {
      j := |es| - 1;
    } else {
      assert k in Build(d, map[], init)[key := ValueOf(d, e)];
      j := LastWith(d, init, k);
      LaterKeysDiffer(d, init, e, j, k);
      assert es == init + [e];
    }
  }

  /** Extending a list by an entry with another key keeps `j` the last index writing `k`. */
  lemma LaterKeysDiffer(d: Direction, init: seq<Entry>, e: Entry, j: int, k: string)
    requires 0 <= j < |init| && KeyOf(d, init[j]) == k && KeyOf(d, e) != k
    requires forall i :: j < i < |init| ==> KeyOf(d, init[i]) != k
    ensures KeyOf(d, (init + [e])[j]) == k
    ensures forall i :: j < i < |init| + 1 ==> KeyOf(d, (init + [e])[i]) != k
  {
    var es := init + [e];
    assert es[j] == init[j];
    forall i | j < i < |es|
      ensures KeyOf(d, es[i]) != k
    {
      if i < |init| {
        assert es[i] == init[i];
      }
    }
  }

  predicate DistinctIds(es: seq<Entry>) {
    forall i, j :: 0 <= i < j < |es| ==> es[i].id != es[j].id
  }

  predicate DistinctLabels(es: seq<Entry>) {
    forall i, j :: 0 <= i < j < |es| ==> Norm(es[i].rawLabel) != Norm(es[j].rawLabel)
  }

  /** With no collisions, the forward and reverse maps built from the same list are mutual inverses. */
  lemma MapsAreInverse(es: seq<Entry>)
    requires DistinctIds(es) && DistinctLabels(es)
    ensures forall l :: l in Build(Reverse, map[], es) ==>
      Build(Reverse, map[], es)[l] in Build(Forward, map[], es)
      && Build(Forward, map[], es)[Build(Reverse, map[], es)[l]] == l
    ensures forall id :: id in Build(Forward, map[], es) ==>
      Build(Forward, map[], es)[id] in Build(Reverse, map[], es)
      && Build(Reverse, map[], es)[Build(Forward, map[], es)[id]] == id
  {
    var fwd, rev := Build(Forward, map[], es), Build(Reverse, map[], es);
    forall l | l in rev ensures rev[l] in fwd && fwd[rev[l]] == l {
      var j := LastWith(Reverse, es, l);
      BuildLastWriter(Reverse, map[], es, j);
      BuildLastWriter(Forward, map[], es, j);
    }
    forall id | id in fwd ensures fwd[id] in rev && rev[fwd[id]] == id {
      var j := LastWith(Forward, es, id);
      BuildLastWriter(Forward, map[], es, j);
      BuildLastWriter(Reverse, map[], es, j);
    }
  }

  /** The reverse map of a two-entry list; the later entry wins a label collision. */
  lemma BuildPair(e: Entry, f: Entry)
    ensures Build(Forward, map[], [e, f]) == map[e.id := Norm(e.rawLabel)][f.id := Norm(f.rawLabel)]
    ensures Build(Reverse, map[], [e, f]) == map[Norm(e.rawLabel) := e.id][Norm(f.rawLabel) := f.id]
  {
    assert [e, f][..1] == [e] && [e][..0] == [];
    assert Build(Forward, map[], [e]) == map[e.id := Norm(e.rawLabel)];
    assert Build(Reverse, map[], [e]) == map[Norm(e.rawLabel) := e.id];
  }

  lemma WatchSpaceTv()
    ensures Norm("Watch TV") == "Watch_TV"
  {
    assert "Watch TV" == "Watch" + [' '] + "TV";
    NormTwoWords("Watch", ' ', "TV");
  }

  lemma WatchDotTv()
    ensures Norm("Watch.TV") == "Watch_TV"
  {
    assert "Watch.TV" == "Watch" + ['.'] + "TV";
    NormTwoWords("Watch", '.', "TV");
  }

  /** Two labels that normalise alike shadow each other: the reverse map keeps only the later id. */
  lemma CollisionShadows()
    ensures Build(Reverse, map[], [Entry("1", "Watch TV"), Entry("2", "Watch.TV")]) == map["Watch_TV" := "2"]
    ensures Build(Forward, map[], [Entry("1", "Watch TV"), Entry("2", "Watch.TV")]) == map["1" := "Watch_TV", "2" := "Watch_TV"]
  {
    WatchSpaceTv();
    WatchDotTv();
    BuildPair(Entry("1", "Watch TV"), Entry("2", "Watch.TV"));
  }
}
