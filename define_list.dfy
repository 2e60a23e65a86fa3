/** The values the define store is made of (define/status pairs) and the
    functions that specify what its three operations do to a list of them. */
module DefineList {
  import opened Text

  /** One scripting define symbol and whether it is enabled. The two-argument
      constructor of the source is this datatype's constructor. */
  datatype DefineStatusPair = DefineStatusPair(define: string, status: bool)

  /** The parameterless constructor: a disabled placeholder define. */
  function NewDefinePair(): (p: DefineStatusPair)
    ensures p.define == "NEW_DEFINE" && !p.status
  {
    DefineStatusPair("NEW_DEFINE", false)
  }

  predicate HasDefine(list: seq<DefineStatusPair>, d: string)
  {
    exists i :: 0 <= i < |list| && list[i].define == d
  }

  /** No two entries share a define. */
  predicate DistinctDefines(list: seq<DefineStatusPair>)
  {
    forall i, j :: 0 <= i < j < |list| ==> list[i].define != list[j].define
  }

  /** The defines of the enabled entries, in list order. */
  function EnabledDefines(list: seq<DefineStatusPair>): (r: seq<string>)
    ensures |r| <= |list|
    ensures forall d :: d in r <==> exists i :: 0 <= i < |list| && list[i].status && list[i].define == d
  {
    if list == [] then []
    else
      var last := list[|list| - 1];
      var front := EnabledDefines(list[..|list| - 1]);
      assert forall i :: 0 <= i < |list| - 1 ==> list[..|list| - 1][i] == list[i];
      front + (if last.status then [last.define] else [])
  }

  /** What is left of ds once its leading empty strings are dropped. */
  function DropLeadingEmpty(ds: seq<string>): (r: seq<string>)
    ensures |r| <= |ds| && r == ds[|ds| - |r|..]
    ensures r == [] || r[0] != ""
    ensures forall i :: 0 <= i < |ds| - |r| ==> ds[i] == ""
  {
    if ds == [] then []
    else if ds[0] == "" then DropLeadingEmpty(ds[1..])
    else ds
  }

  /** Appending one define either starts what is left after the leading empty
      ones (when nothing non-empty came before) or extends it. */
  lemma {:induction false} DropLeadingEmptyAppend(ds: seq<string>, x: string)
    ensures DropLeadingEmpty(ds + [x]) ==
      if DropLeadingEmpty(ds) == [] then (if x == "" then [] else [x])
      else DropLeadingEmpty(ds) + [x]
  {
    if ds == [] {
      assert [x][1..] == [];
    } else if ds[0] == "" {
      assert (ds + [x])[1..] == ds[1..] + [x];
      DropLeadingEmptyAppend(ds[1..], x);
    }
  }

  /** The string the DefinesString getter returns for a list: the enabled
      defines in list order, joined by ';', except that enabled empty defines
      met before the first non-empty one add nothing. */
  function Serialized(list: seq<DefineStatusPair>): (r: string)
    ensures (forall i :: 0 <= i < |list| ==> !list[i].status) ==> r == ""
  {
    var e := EnabledDefines(list);
    assert e != [] ==> e[0] in e;
    Join(DropLeadingEmpty(e))
  }

  /** One iteration of the getter's loop: a disabled pair adds nothing; an
      enabled one is appended, after a ';' unless the accumulator is empty. */
  function AppendIfEnabled(acc: string, p: DefineStatusPair): (r: string)
    ensures !p.status ==> r == acc
  {
    if !p.status then acc
    else if acc == "" then p.define
    else acc + [Separator] + p.define
  }

  /** The getter's accumulator after it has walked the whole list. */
  function Accumulated(list: seq<DefineStatusPair>): string
  {
    if list == [] then ""
    else AppendIfEnabled(Accumulated(list[..|list| - 1]), list[|list| - 1])
  }

  /** Serializing one more pair is one more iteration of the getter's loop. */
  lemma SerializedStep(front: seq<DefineStatusPair>, p: DefineStatusPair)
    ensures Serialized(front + [p]) == AppendIfEnabled(Serialized(front), p)
  {
    assert (front + [p])[..|front|] == front;
    var e := EnabledDefines(front);
    var d := DropLeadingEmpty(e);
    if p.status {
      assert EnabledDefines(front + [p]) == e + [p.define];
      DropLeadingEmptyAppend(e, p.define);
      if d != [] {
        JoinAppend(d, p.define);
        assert |d[0]| > 0 && d[0] <= Join(d);
      }
    } else {
      assert EnabledDefines(front + [p]) == e;
    }
  }

  /** The getter's pair-by-pair accumulation yields the enabled defines joined
      by ';' once leading empty ones are dropped. */
  lemma {:induction false} AccumulatedIsSerialized(list: seq<DefineStatusPair>)
    ensures Accumulated(list) == Serialized(list)
  {
    if list != [] {
      var front := list[..|list| - 1];
      AccumulatedIsSerialized(front);
      assert list == front + [list[|list| - 1]];
      SerializedStep(front, list[|list| - 1]);
    }
  }

  /** The segments the DefinesString setter keeps: neither empty nor blank. */
  predicate IsKeptSegment(seg: string)
    ensures IsKeptSegment(seg) <==> exists i :: 0 <= i < |seg| && !IsWhiteSpace(seg[i])
  {
    seg != "" && !IsWhiteSpaceOnly(seg)
  }

  function KeepSegments(segs: seq<string>): (r: seq<string>)
    ensures |r| <= |segs|
    ensures forall x :: x in r <==> x in segs && IsKeptSegment(x)
  {
    if segs == [] then []
    else
      var rest := KeepSegments(segs[1..]);
      assert forall x :: x in segs <==> x == segs[0] || x in segs[1..];
      if IsKeptSegment(segs[0]) then [segs[0]] + rest else rest
  }

  /** The segments of value that the setter upserts, in order. */
  function KeptSegments(value: string): seq<string>
  {
    KeepSegments(Split(value))
  }

  /** The list with every entry whose define is d given status s. */
  function SetStatus(list: seq<DefineStatusPair>, d: string, s: bool): (r: seq<DefineStatusPair>)
    ensures |r| == |list|
    ensures forall i :: 0 <= i < |list| ==>
      r[i].define == list[i].define && r[i].status == (if list[i].define == d then s else list[i].status)
  {
    if list == [] then []
    else [if list[0].define == d then list[0].(status := s) else list[0]] + SetStatus(list[1..], d, s)
  }

  /** What AddDefine(d, s) leaves in the list: every entry named d takes
      status s, the others keep theirs, and the order and the defines stay;
      when no entry is named d, exactly (d, s) is appended. */
  function Upsert(list: seq<DefineStatusPair>, d: string, s: bool): (r: seq<DefineStatusPair>)
    ensures |r| == if HasDefine(list, d) then |list| else |list| + 1
    ensures forall i :: 0 <= i < |list| ==>
      r[i].define == list[i].define && r[i].status == (if list[i].define == d then s else list[i].status)
    ensures !HasDefine(list, d) ==> r == list + [DefineStatusPair(d, s)]
  {
    if HasDefine(list, d) then SetStatus(list, d, s)
    else list + [DefineStatusPair(d, s)]
  }

  /** After an upsert of d, d is in the list and every entry named d has the
      new status. */
  lemma UpsertSetsEveryMatch(list: seq<DefineStatusPair>, d: string, s: bool)
    ensures HasDefine(Upsert(list, d, s), d)
    ensures forall i :: 0 <= i < |Upsert(list, d, s)| && Upsert(list, d, s)[i].define == d ==>
      Upsert(list, d, s)[i].status == s
  {
    var r := Upsert(list, d, s);
    if !HasDefine(list, d) {
      assert r[|list|].define == d;
    }
  }

  /** An upsert keeps the defines of a list distinct if they were. */
  lemma UpsertKeepsDistinct(list: seq<DefineStatusPair>, d: string, s: bool)
    requires DistinctDefines(list)
    ensures DistinctDefines(Upsert(list, d, s))
  {
  }

  /** What the setter leaves in the list: each segment, in order, upserted as
      enabled. */
  function MergeEnabled(list: seq<DefineStatusPair>, segs: seq<string>): (r: seq<DefineStatusPair>)
    ensures |list| <= |r| <= |list| + |segs|
  {
    if segs == [] then list
    else Upsert(MergeEnabled(list, segs[..|segs| - 1]), segs[|segs| - 1], true)
  }
}
