/** The update command's text as it is built: loops over the fields of $set and $unset, and the filter compiler called
    for the guard. */
module UpdateCompiler {
  import opened Types
  import opened Numerals
  import opened Sql
  import opened Where
  import opened WhereCompiler
  import opened RowUpdate
  import opened Update

  /** getUpdateKey's loop over the dotted parts. */
  method UpdateKeyLoop(key: bytes) returns (r: Result<Path>)
    ensures r == UpdateKey(key)
  {
    if '.' !in key { return Ok([Name(key)]); }
    var splitKey := SplitDots(key);
    var updateKey: Path, isInt := [], false;
    StartSteps(splitKey);
    for i := 0 to |splitKey|
      invariant UpdateSteps(splitKey, false) == AfterSteps(updateKey, UpdateSteps(splitKey[i..], isInt))
    {
      ghost var tail := splitKey[i..];
      assert tail[1..] == splitKey[i + 1..];
      StepTurn(updateKey, tail, isInt);
      var kInt := Atoi(splitKey[i]);
      if kInt.Some? {
        if isInt { return Err(NotImplemented); }
        updateKey := updateKey + [Index(kInt.value + 1)];
        isInt := true;
        continue;
      }
      updateKey := updateKey + [Name(splitKey[i])];
      isInt := false;
    }
    assert updateKey + [] == updateKey;
    r := Ok(updateKey);
  }

  lemma StartSteps(parts: seq<bytes>)
    ensures UpdateSteps(parts, false) == AfterSteps([], UpdateSteps(parts[0..], false))
  {
    var r := UpdateSteps(parts, false);
    assert parts[0..] == parts;
    if r.Ok? { assert [] + r.value == r.value; }
  }

  lemma {:induction false} StepTurn(path: Path, parts: seq<bytes>, isInt: bool)
    requires parts != []
    ensures AfterSteps(path, UpdateSteps(parts, isInt))
         == match Atoi(parts[0])
            case Some(n) =>
              if isInt then Err(NotImplemented) else AfterSteps(path + [Index(n + 1)], UpdateSteps(parts[1..], true))
            case None => AfterSteps(path + [Name(parts[0])], UpdateSteps(parts[1..], false))
  {
    match Atoi(parts[0])
    case Some(n) => OneStep(path, Index(n + 1), UpdateSteps(parts[1..], true));
    case None => OneStep(path, Name(parts[0]), UpdateSteps(parts[1..], false));
  }

  ghost function AfterSteps(path: Path, r: Result<Path>): Result<Path> {
    match r case Ok(rest) => Ok(path + rest) case Err(e) => Err(e)
  }

  lemma OneStep(path: Path, s: Step, r: Result<Path>)
    ensures AfterSteps(path, Prefix(s, r)) == AfterSteps(path + [s], r)
  {
    if r.Ok? { Assoc(path, [s], r.value); }
  }

  /** The lists that createSetandUnsetSqlStmnt builds: assignments for $set, paths for both. */
  ghost function Lists(doc: Fields, isSet: bool): Result<(seq<Assignment>, seq<Path>)> {
    if isSet then match SetList(doc) case Ok(sets) => Ok((sets, PathsOf(sets))) case Err(e) => Err(e)
    else match UnsetList(doc) case Ok(paths) => Ok(([], paths)) case Err(e) => Err(e)
  }

  ghost function AfterLists(sets: seq<Assignment>, paths: seq<Path>, r: Result<(seq<Assignment>, seq<Path>)>)
    : Result<(seq<Assignment>, seq<Path>)>
  {
    match r case Ok((s, p)) => Ok((sets + s, paths + p)) case Err(e) => Err(e)
  }

  lemma ListsStep(doc: Fields, isSet: bool, sets: seq<Assignment>, paths: seq<Path>)
    requires doc != [] && !IsIdKey(doc[0].name) && UpdateKey(doc[0].name).Ok?
    requires isSet ==> UpdateValue(doc[0].value).Ok?
    ensures var path := UpdateKey(doc[0].name).value;
            AfterLists(sets, paths, Lists(doc, isSet))
            == AfterLists(if isSet then sets + [Assignment(path, UpdateValue(doc[0].value).value)] else sets,
                          paths + [path], Lists(doc[1..], isSet))
  {
    var path := UpdateKey(doc[0].name).value;
    if isSet && SetList(doc[1..]).Ok? {
      var rest := SetList(doc[1..]).value;
      var a := Assignment(path, UpdateValue(doc[0].value).value);
      assert PathsOf([a] + rest) == [path] + PathsOf(rest);
      Assoc(sets, [a], rest);
      Assoc(paths, [path], PathsOf(rest));
    } else if !isSet && UnsetList(doc[1..]).Ok? {
      Assoc(paths, [path], UnsetList(doc[1..]).value);
    }
  }

  lemma {:induction false} TargetTextAppend(paths: seq<Path>, p: Path, present: bool)
    ensures TargetText(paths + [p], present)
         == (if paths == [] then [] else TargetText(paths, present) + [OR]) + [Ident(p), IS, TargetToken(present)]
  {
    if |paths| <= 1 {
      assert (paths + [p])[|paths|..] == [p];
    } else {
      TargetTextAppend(paths[1..], p, present);
      assert (paths + [p])[1..] == paths[1..] + [p];
      var head := [Ident(paths[0]), IS, TargetToken(present)] + [OR];
      Assoc(head, TargetText(paths[1..], present) + [OR], [Ident(p), IS, TargetToken(present)]);
      Assoc(head, TargetText(paths[1..], present), [OR]);
    }
  }

  method CreateSetAndUnset(doc: Fields, isSet: bool)
    returns (r: Result<(seq<Assignment>, seq<Path>)>, isSetOrUnsetSQL: Tokens)
    ensures r == Lists(doc, isSet)
    ensures r.Ok? ==> isSetOrUnsetSQL == TargetText(r.value.1, !isSet)
  {
    var sets: seq<Assignment>, paths: seq<Path> := [], [];
    isSetOrUnsetSQL := [];
    StartLists(Lists(doc, isSet));
    for i := 0 to |doc|
      invariant |paths| == i && isSetOrUnsetSQL == TargetText(paths, !isSet)
      invariant Lists(doc, isSet) == AfterLists(sets, paths, Lists(doc[i..], isSet))
    {
      ghost var tail := doc[i..];
      assert tail[1..] == doc[i + 1..];
      if IsIdKey(doc[i].name) { return Err(OtherError), []; }
      if i != 0 { isSetOrUnsetSQL := isSetOrUnsetSQL + [OR]; }
      var updateKey := UpdateKeyLoop(doc[i].name);
      if updateKey.Err? { return Err(updateKey.error), []; }
      var updateValue := UpdateValue(doc[i].value);
      if isSet && updateValue.Err? { return Err(updateValue.error), []; }
      ListsStep(tail, isSet, sets, paths);
      TargetTextAppend(paths, updateKey.value, !isSet);
      if isSet { sets := sets + [Assignment(updateKey.value, updateValue.value)]; }
      paths := paths + [updateKey.value];
      isSetOrUnsetSQL := isSetOrUnsetSQL + [Ident(updateKey.value), IS, if isSet then UNSET else SET];
    }
    StartLists(Ok((sets, paths)));
    r := Ok((sets, paths));
  }

  lemma StartLists(r: Result<(seq<Assignment>, seq<Path>)>)
    ensures AfterLists([], [], r) == r
    ensures r.Ok? ==> AfterLists(r.value.0, r.value.1, Ok(([], []))) == r
  {
    if r.Ok? {
      var (s, p) := r.value;
      assert [] + s == s == s + [] && [] + p == p == p + [];
    }
  }

  /** update: the plan of an update document. The guard is compiled by the same compiler as the filter, in the mode
      the compiler happens to be in. */
  method CreatePlan(c: Compiler, u: Fields) returns (r: Result<Plan>)
    requires c.Valid()
    modifies c
    ensures c.Valid()
    ensures r == UpdatePlan(u, old(c.isNor))
    ensures r.Ok? ==> c.isNor == old(c.isNor) && c.norCounter == old(c.norCounter)
  {
    if HasUnimplemented(u) { return Err(NotImplemented); }
    var setDoc := Part(u, "$set");
    var sets, isUnsetSQL := CreateSetAndUnset(setDoc, true);
    if sets.Err? { return Err(sets.error); }
    var unsets, isSetSQL := CreateSetAndUnset(Part(u, "$unset"), false);
    if unsets.Err? { return Err(unsets.error); }
    if sets.value.0 != [] {
      var notWhereSQL := c.CreateWhereClause(setDoc);
      if notWhereSQL.Err? { return Err(notWhereSQL.error); }
      var pairs := if notWhereSQL.value == [] then [] else notWhereSQL.value[1..];
      var second := if unsets.value.1 != [] then [OR] + Parens(isSetSQL) else [];
      r := Ok(Plan(sets.value.0, unsets.value.1,
                   [AND] + Parens([NOT] + Parens(pairs) + [OR] + Parens(isUnsetSQL) + second)));
    } else if unsets.value.1 != [] {
      r := Ok(Plan([], unsets.value.1, [AND] + Parens(isSetSQL)));
    } else {
      r := Err(OtherError);
    }
  }
}
