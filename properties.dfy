/** What the define store's getter, setter and upsert promise, stated over the
    specification functions of DefineList. */
module DefineListProperties {
  import opened Text
  import opened DefineList

  // ---------------------------------------------------------------------
  // The getter

  /** When no enabled define is empty, the getter's string is exactly the
      enabled defines, in list order, joined by ';'. */
  lemma SerializedJoinsEnabled(list: seq<DefineStatusPair>)
    requires forall i :: 0 <= i < |list| && list[i].status ==> list[i].define != ""
    ensures Serialized(list) == Join(EnabledDefines(list))
  {
    var e := EnabledDefines(list);
    if e != [] {
      assert e[0] in e;
    }
  }

  /** The getter returns "" exactly when every enabled define is empty; in
      particular when no pair is enabled. */
  lemma SerializedEmptyIff(list: seq<DefineStatusPair>)
    ensures Serialized(list) == "" <==>
      forall i :: 0 <= i < |list| && list[i].status ==> list[i].define == ""
  {
    var e := EnabledDefines(list);
    var d := DropLeadingEmpty(e);
    if d != [] {
      assert |d[0]| > 0 && d[0] <= Join(d);
      assert d[0] == e[|e| - |d|];
      assert d[0] in e;
    } else {
      forall i | 0 <= i < |list| && list[i].status
        ensures list[i].define == ""
      {
        assert list[i].define in e;
      }
    }
  }

  /** Collecting the enabled defines distributes over concatenation. */
  lemma {:induction false} EnabledDefinesConcat(a: seq<DefineStatusPair>, b: seq<DefineStatusPair>)
    ensures EnabledDefines(a + b) == EnabledDefines(a) + EnabledDefines(b)
  {
    if b == [] {
      assert a + b == a;
    } else {
      var front := b[..|b| - 1];
      EnabledDefinesConcat(a, front);
      assert (a + b)[..|a + b| - 1] == a + front;
    }
  }

  /** A disabled pair contributes nothing, wherever it stands in the list. */
  lemma DisabledPairIgnored(a: seq<DefineStatusPair>, p: DefineStatusPair, b: seq<DefineStatusPair>)
    requires !p.status
    ensures Serialized(a + [p] + b) == Serialized(a + b)
  {
    EnabledDefinesConcat(a + [p], b);
    EnabledDefinesConcat(a, [p]);
    EnabledDefinesConcat(a, b);
    assert [p][..0] == [];
    assert EnabledDefines([p]) == [];
    assert EnabledDefines(a + [p] + b) == EnabledDefines(a + b);
  }

  /** A pair made by the parameterless constructor contributes nothing. */
  lemma NewDefinePairIgnored(a: seq<DefineStatusPair>, b: seq<DefineStatusPair>)
    ensures Serialized(a + [NewDefinePair()] + b) == Serialized(a + b)
  {
    DisabledPairIgnored(a, NewDefinePair(), b);
  }

  /** The getter omits disabled pairs: [A enabled, B disabled] gives "A", and
      [X1, X2] both enabled gives "X1;X2". */
  lemma SerializedOmitsDisabledExample()
    ensures Serialized([DefineStatusPair("A", true), DefineStatusPair("B", false)]) == "A"
    ensures Serialized([DefineStatusPair("X1", true), DefineStatusPair("X2", true)]) == "X1;X2"
  {
    var a, b := DefineStatusPair("A", true), DefineStatusPair("B", false);
    SerializedStep([], a);
    SerializedStep([a], b);
    assert [] + [a] == [a] && [a] + [b] == [a, b];
    var x1, x2 := DefineStatusPair("X1", true), DefineStatusPair("X2", true);
    SerializedStep([], x1);
    SerializedStep([x1], x2);
    assert [] + [x1] == [x1] && [x1] + [x2] == [x1, x2];
  }

  /** An enabled empty define before any non-empty one is swallowed, and an
      enabled blank define is kept as it is. */
  lemma SerializedLeadingEmptyExample()
    ensures Serialized([DefineStatusPair("", true), DefineStatusPair("A", true)]) == "A"
    ensures Serialized([DefineStatusPair(" ", true)]) == " "
  {
    var e, a := DefineStatusPair("", true), DefineStatusPair("A", true);
    SerializedStep([], e);
    SerializedStep([e], a);
    assert [] + [e] == [e] && [e] + [a] == [e, a];
    var blank := DefineStatusPair(" ", true);
    SerializedStep([], blank);
    assert [] + [blank] == [blank];
  }

  /** An enabled empty define after a non-empty one gives ";;". */
  lemma SerializedInnerEmptyExample()
    ensures Serialized([DefineStatusPair("A", true), DefineStatusPair("", true), DefineStatusPair("B", true)]) == "A;;B"
  {
    var e, a, b := DefineStatusPair("", true), DefineStatusPair("A", true), DefineStatusPair("B", true);
    assert Accumulated([a]) == "A" by {
      assert [a][..0] == [];
    }
    assert Accumulated([a, e]) == "A;" by {
      assert [a, e][..1] == [a];
    }
    assert Accumulated([a, e, b]) == "A;;B" by {
      assert [a, e, b][..2] == [a, e];
      assert "A;" + [Separator] + "B" == "A;;B";
    }
    AccumulatedIsSerialized([a, e, b]);
  }

  // ---------------------------------------------------------------------
  // The setter

  /** After the setter, every segment it kept names an entry, and every entry
      named by a kept segment is enabled (duplicates included). */
  lemma {:induction false} MergeEnablesSegments(list: seq<DefineStatusPair>, segs: seq<string>)
    ensures forall k :: 0 <= k < |segs| ==> HasDefine(MergeEnabled(list, segs), segs[k])
    ensures forall i :: 0 <= i < |MergeEnabled(list, segs)| && MergeEnabled(list, segs)[i].define in segs ==>
      MergeEnabled(list, segs)[i].status
  {
    if segs != [] {
      var front := segs[..|segs| - 1];
      var x := segs[|segs| - 1];
      assert segs == front + [x];
      MergeEnablesSegments(list, front);
      var before := MergeEnabled(list, front);
      var after := MergeEnabled(list, segs);
      assert after == Upsert(before, x, true);
      UpsertSetsEveryMatch(before, x, true);
      forall k | 0 <= k < |front|
        ensures HasDefine(after, front[k])
      {
        var i :| 0 <= i < |before| && before[i].define == front[k];
        assert after[i].define == front[k];
      }
      forall i | 0 <= i < |after| && after[i].define in segs
        ensures after[i].status
      {
        if after[i].define != x {
          assert i < |before|;
        }
      }
    }
  }

  /** The setter as it is given a string: every segment of value that is
      neither empty nor blank ends up in the list, and every entry it names is
      enabled. */
  lemma SetterEnablesValueSegments(list: seq<DefineStatusPair>, value: string, x: string)
    requires x in Split(value) && IsKeptSegment(x)
    ensures HasDefine(MergeEnabled(list, KeptSegments(value)), x)
    ensures var m := MergeEnabled(list, KeptSegments(value));
      forall i :: 0 <= i < |m| && m[i].define == x ==> m[i].status
  {
    var segs := KeptSegments(value);
    MergeEnablesSegments(list, segs);
    var k :| 0 <= k < |segs| && segs[k] == x;
  }

  /** The setter is additive: it keeps every existing entry in place with its
      define, and an entry that no kept segment names keeps its status. */
  lemma {:induction false} MergeKeepsExisting(list: seq<DefineStatusPair>, segs: seq<string>)
    ensures |list| <= |MergeEnabled(list, segs)|
    ensures forall i :: 0 <= i < |list| ==> MergeEnabled(list, segs)[i].define == list[i].define
    ensures forall i :: 0 <= i < |list| && list[i].define !in segs ==>
      MergeEnabled(list, segs)[i].status == list[i].status
  {
    if segs != [] {
      var front := segs[..|segs| - 1];
      MergeKeepsExisting(list, front);
    }
  }

  /** The entries the setter adds come after the existing ones, are enabled,
      are named by kept segments that named no existing entry, and are
      pairwise distinct. */
  lemma {:induction false} MergeAppendsNew(list: seq<DefineStatusPair>, segs: seq<string>)
    ensures |list| <= |MergeEnabled(list, segs)|
    ensures forall i :: |list| <= i < |MergeEnabled(list, segs)| ==>
      var p := MergeEnabled(list, segs)[i];
      p.define in segs && p.status && !HasDefine(list, p.define)
    ensures forall i, j :: |list| <= i < j < |MergeEnabled(list, segs)| ==>
      MergeEnabled(list, segs)[i].define != MergeEnabled(list, segs)[j].define
  {
    if segs != [] {
      var front := segs[..|segs| - 1];
      var x := segs[|segs| - 1];
      assert segs == front + [x];
      MergeAppendsNew(list, front);
      MergeKeepsExisting(list, front);
      var before := MergeEnabled(list, front);
      var after := MergeEnabled(list, segs);
      assert after == Upsert(before, x, true);
      if HasDefine(before, x) {
        assert |after| == |before|;
        assert forall i :: 0 <= i < |before| ==> after[i].define == before[i].define;
        forall i | |list| <= i < |after|
          ensures after[i].define in segs && after[i].status && !HasDefine(list, after[i].define)
        {
          assert before[i].define in front;
        }
      } else {
        assert after == before + [DefineStatusPair(x, true)];
        forall i | |list| <= i < |after|
          ensures after[i].define in segs && after[i].status && !HasDefine(list, after[i].define)
        {
          if i < |before| {
            assert before[i].define in front;
          }
        }
        forall i, j | |list| <= i < j < |after|
          ensures after[i].define != after[j].define
        {
          if j == |before| {
            assert after[i].define == before[i].define;
          }
        }
      }
    }
  }

  /** A sequence of distinct strings drawn from a set is no longer than the
      set is large. */
  lemma {:induction false} DistinctWithinBound(xs: seq<string>, s: set<string>)
    requires forall i :: 0 <= i < |xs| ==> xs[i] in s
    requires forall i, j :: 0 <= i < j < |xs| ==> xs[i] != xs[j]
    ensures |xs| <= |s|
  {
    if xs != [] {
      DistinctWithinBound(xs[1..], s - {xs[0]});
    }
  }

  /** The setter never shrinks the list, and grows it by at most the number of
      distinct kept segments that named no existing entry. */
  lemma MergeGrowthBound(list: seq<DefineStatusPair>, segs: seq<string>)
    ensures |list| <= |MergeEnabled(list, segs)|
    ensures |MergeEnabled(list, segs)| - |list| <= |set d | d in segs && !HasDefine(list, d)|
  {
    MergeAppendsNew(list, segs);
    var m := MergeEnabled(list, segs);
    var added := seq(|m| - |list|, i requires 0 <= i < |m| - |list| => m[|list| + i].define);
    DistinctWithinBound(added, set d | d in segs && !HasDefine(list, d));
  }

  /** The setter keeps the defines of a list distinct if they were. */
  lemma {:induction false} MergeKeepsDistinct(list: seq<DefineStatusPair>, segs: seq<string>)
    requires DistinctDefines(list)
    ensures DistinctDefines(MergeEnabled(list, segs))
  {
    if segs != [] {
      MergeKeepsDistinct(list, segs[..|segs| - 1]);
      UpsertKeepsDistinct(MergeEnabled(list, segs[..|segs| - 1]), segs[|segs| - 1], true);
    }
  }

  /** Enabling a define that is present and enabled wherever it appears
      changes nothing. */
  lemma UpsertEnabledUnchanged(list: seq<DefineStatusPair>, d: string)
    requires HasDefine(list, d)
    requires forall i :: 0 <= i < |list| && list[i].define == d ==> list[i].status
    ensures Upsert(list, d, true) == list
  {
    var r := Upsert(list, d, true);
    assert forall i :: 0 <= i < |list| ==> r[i] == list[i];
  }

  /** Merging segments that all name present, enabled entries changes
      nothing. */
  lemma {:induction false} MergeEnabledUnchanged(list: seq<DefineStatusPair>, segs: seq<string>)
    requires forall k :: 0 <= k < |segs| ==> HasDefine(list, segs[k])
    requires forall i :: 0 <= i < |list| && list[i].define in segs ==> list[i].status
    ensures MergeEnabled(list, segs) == list
  {
    if segs != [] {
      var front := segs[..|segs| - 1];
      var x := segs[|segs| - 1];
      forall i | 0 <= i < |list| && list[i].define in front
        ensures list[i].status
      {
        var k :| 0 <= k < |front| && front[k] == list[i].define;
        assert segs[k] == front[k];
      }
      MergeEnabledUnchanged(list, front);
      UpsertEnabledUnchanged(list, x);
    }
  }

  /** Every segment the setter keeps from the getter's string is an enabled
      define, when no enabled define holds a ';'. */
  lemma KeptSegmentsOfSerialized(list: seq<DefineStatusPair>)
    requires forall i :: 0 <= i < |list| && list[i].status ==> Separator !in list[i].define
    ensures forall x :: x in KeptSegments(Serialized(list)) ==> x in EnabledDefines(list)
  {
    var e := EnabledDefines(list);
    var d := DropLeadingEmpty(e);
    assert forall x :: x in d ==> x in e;
    if d == [] {
      assert Split("") == [""];
    } else {
      forall i | 0 <= i < |d|
        ensures Separator !in d[i]
      {
        assert d[i] in e;
      }
      SplitJoin(d);
    }
  }

  /** Feeding the getter's string back to the setter leaves the list as it
      was, when defines are distinct and no enabled define holds a ';'. */
  lemma SetterAfterGetter(list: seq<DefineStatusPair>)
    requires DistinctDefines(list)
    requires forall i :: 0 <= i < |list| && list[i].status ==> Separator !in list[i].define
    ensures MergeEnabled(list, KeptSegments(Serialized(list))) == list
  {
    var segs := KeptSegments(Serialized(list));
    KeptSegmentsOfSerialized(list);
    forall k | 0 <= k < |segs|
      ensures HasDefine(list, segs[k])
    {
      assert segs[k] in EnabledDefines(list);
    }
    forall i | 0 <= i < |list| && list[i].define in segs
      ensures list[i].status
    {
      assert list[i].define in EnabledDefines(list);
    }
    MergeEnabledUnchanged(list, segs);
  }

  /** "A;B;B; ;C" splits into five segments, the blank one included. */
  lemma SplitExample()
    ensures Split("A;B;B; ;C") == ["A", "B", "B", " ", "C"]
  {
    var parts := ["A", "B", "B", " ", "C"];
    assert Join(parts[4..]) == "C";
    assert Join(parts[3..]) == " ;C";
    assert Join(parts[2..]) == "B; ;C";
    assert Join(parts[1..]) == "B;B; ;C";
    assert Join(parts) == "A;B;B; ;C";
    SplitJoin(parts);
  }

  /** Of the segments A, B, B, " " and C the setter keeps all but the blank one. */
  lemma KeepSegmentsExample()
    ensures KeepSegments(["A", "B", "B", " ", "C"]) == ["A", "B", "B", "C"]
  {
    var parts := ["A", "B", "B", " ", "C"];
    assert !IsKeptSegment(" ") by {
      assert IsWhiteSpaceOnly(" ");
    }
    assert IsKeptSegment("A") && IsKeptSegment("B") && IsKeptSegment("C") by {
      assert !IsWhiteSpace("A"[0]) && !IsWhiteSpace("B"[0]) && !IsWhiteSpace("C"[0]);
    }
    assert KeepSegments(parts[4..]) == ["C"] by {
      assert parts[4..][1..] == [];
    }
    assert KeepSegments(parts[3..]) == ["C"];
    assert KeepSegments(parts[2..]) == ["B", "C"];
    assert KeepSegments(parts[1..]) == ["B", "B", "C"];
  }

  /** Of the segments of "A;B;B; ;C" the setter keeps A, B, B and C. */
  lemma KeptSegmentsExample()
    ensures KeptSegments("A;B;B; ;C") == ["A", "B", "B", "C"]
  {
    SplitExample();
    KeepSegmentsExample();
  }

  /** Upserting A, B, B and C as enabled into an empty store gives A, B and C
      once each. */
  lemma MergeEnabledExample()
    ensures MergeEnabled([], ["A", "B", "B", "C"]) ==
      [DefineStatusPair("A", true), DefineStatusPair("B", true), DefineStatusPair("C", true)]
  {
    var segs := ["A", "B", "B", "C"];
    var a, b, c := DefineStatusPair("A", true), DefineStatusPair("B", true), DefineStatusPair("C", true);
    assert MergeEnabled([], segs[..1]) == [a] by {
      assert segs[..1] == ["A"] && ["A"][..0] == [];
      assert !HasDefine([], "A");
    }
    assert MergeEnabled([], segs[..2]) == [a, b] by {
      assert segs[..2][..1] == segs[..1];
      assert !HasDefine([a], "B");
    }
    assert MergeEnabled([], segs[..3]) == [a, b] by {
      assert segs[..3][..2] == segs[..2];
      assert [a, b][1].define == "B";
      UpsertEnabledUnchanged([a, b], "B");
    }
    assert segs[..3] == segs[..|segs| - 1];
    assert !HasDefine([a, b], "C");
  }

  /** Loading "A;B;B; ;C" into an empty store gives A, B and C, each once and
      enabled; the blank segment is dropped. */
  lemma SetterExample()
    ensures MergeEnabled([], KeptSegments("A;B;B; ;C")) ==
      [DefineStatusPair("A", true), DefineStatusPair("B", true), DefineStatusPair("C", true)]
  {
    KeptSegmentsExample();
    MergeEnabledExample();
  }
}
