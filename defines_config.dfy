/** The define store: an ordered list of define/status pairs that is read and
    written as one ';'-separated string of enabled defines. */
module ScriptingDefines {
  import opened Text
  import opened DefineList

  class DefinesConfig {
    /** The defines and their status, in display order. */
    var definesList: seq<DefineStatusPair>

    constructor ()
      ensures definesList == []
    {
      definesList := [];
    }

    /** The DefinesString getter: the enabled defines joined by ';', in list
        order, as the host's compile-symbol setting expects them. */
    method GetDefinesString() returns (definesString: string)
      ensures definesString == Serialized(definesList)
    {
      var list := definesList;
      definesString := "";
      for i := 0 to |list|
        invariant definesString == Accumulated(list[..i])
      {
        var pair := list[i];
        assert list[..i + 1][..i] == list[..i];
        if !pair.status {
          continue;
        }
        definesString := definesString + if definesString == "" then pair.define else [Separator] + pair.define;
      }
      assert list[..|list|] == list;
      AccumulatedIsSerialized(list);
    }

    /** The DefinesString setter: splits value on ';' and, for every segment
        that is neither empty nor blank, enables that define, adding it when
        absent. Defines the string does not name are left as they were. */
    method SetDefinesString(value: string)
      modifies this
      ensures definesList == MergeEnabled(old(definesList), KeptSegments(value))
    {
      var segments := KeptSegments(value);
      for k := 0 to |segments|
        invariant definesList == MergeEnabled(old(definesList), segments[..k])
      {
        assert segments[..k + 1][..k] == segments[..k];
        AddDefine(segments[k], true);
      }
      assert segments[..|segments|] == segments;
    }

    /** Gives status to every entry whose define matches; appends the pair
        only when none matched. */
    method AddDefine(define: string, status: bool)
      modifies this
      ensures definesList == Upsert(old(definesList), define, status)
    {
      ghost var original := definesList;
      var matched := false;
      for i := 0 to |definesList|
        invariant |definesList| == |original|
        invariant forall j :: 0 <= j < i ==>
          definesList[j].define == original[j].define &&
          definesList[j].status == (if original[j].define == define then status else original[j].status)
        invariant forall j :: i <= j < |definesList| ==> definesList[j] == original[j]
        invariant matched <==> exists j :: 0 <= j < i && original[j].define == define
      {
        if definesList[i].define == define {
          definesList := definesList[i := definesList[i].(status := status)];
          matched := true;
        }
      }
      if matched {
        assert HasDefine(original, define);
        ghost var expected := Upsert(original, define, status);
        assert forall j :: 0 <= j < |definesList| ==> definesList[j] == expected[j];
        return;
      }
      assert !HasDefine(original, define);
      definesList := definesList + [DefineStatusPair(define, status)];
      ghost var expected := Upsert(original, define, status);
      assert forall j :: 0 <= j < |definesList| ==> definesList[j] == expected[j];
    }
  }
}
