/**
 The narrowing step of src/graphql/resolvers.go, which keeps of a resolved value only
 what a selection set asks for.
 */
module GraphqlNarrow {
  import opened Results
  import opened GraphqlGrammar

  /** A decoded JSON document; what a scalar holds does not matter here. */
  datatype Json =
    | JNull
    | JScalar(text: string)
    | JList(items: seq<Json>)
    | JObject(members: map<string, Json>)

  datatype NarrowError = MissingField(name: string) | NoSubfields

  function Narrow(v: Json, sels: seq<Selection>): Result<Json, NarrowError>
    decreases v, 1, 0
  {
    match v
    case JNull => Ok(JNull)
    case JList(items) =>
      var out :- NarrowItems(items, sels);
      Ok(JList(out))
    case JObject(members) =>
      var out :- NarrowFields(v, sels);
      Ok(JObject(out))
    case JScalar(_) => Err(NoSubfields)
  }

  function NarrowItems(items: seq<Json>, sels: seq<Selection>): Result<seq<Json>, NarrowError>
    decreases items, 0, 0
  {
    if items == [] then Ok([])
    else
      var narrowed :- Narrow(items[0], sels);
      var rest :- NarrowItems(items[1..], sels);
      Ok([narrowed] + rest)
  }

  /** The fields of one object in selection order; a later field replaces an earlier one of the same key. */
  function NarrowFields(v: Json, sels: seq<Selection>): Result<map<string, Json>, NarrowError>
    requires v.JObject?
    decreases v, 0, |sels|
  {
    if sels == [] then Ok(map[])
    else
      var last := sels[|sels| - 1];
      var out :- NarrowFields(v, sels[..|sels| - 1]);
      var member :- NarrowField(v, last);
      Ok(out[last.Key() := member])
  }

  function NarrowField(v: Json, sel: Selection): Result<Json, NarrowError>
    requires v.JObject?
    decreases v, 0, 0
  {
    if sel.name !in v.members then Err(MissingField(sel.name))
    else if sel.selections == [] then Ok(v.members[sel.name])
    else Narrow(v.members[sel.name], sel.selections)
  }

  // ----- Element by element

  lemma {:induction false} ItemsNarrow(items: seq<Json>, sels: seq<Selection>)
    requires NarrowItems(items, sels).Ok?
    ensures |NarrowItems(items, sels).value| == |items|
    ensures forall i | 0 <= i < |items| :: Narrow(items[i], sels) == Ok(NarrowItems(items, sels).value[i])
  {
    hide Narrow;
    if items != [] {
      ItemsNarrow(items[1..], sels);
    }
  }

  lemma {:induction false} FieldsNarrow(v: Json, sels: seq<Selection>)
    requires v.JObject? && NarrowFields(v, sels).Ok?
    ensures forall s | s in sels :: s.Key() in NarrowFields(v, sels).value && NarrowField(v, s).Ok?
    ensures forall k | k in NarrowFields(v, sels).value :: exists s :: s in sels && s.Key() == k
  {
    hide NarrowField;
    if sels != [] {
      var front, last := sels[..|sels| - 1], sels[|sels| - 1];
      FieldsNarrow(v, front);
      assert sels == front + [last];
      forall k | k in NarrowFields(v, sels).value ensures exists s :: s in sels && s.Key() == k {
        if k == last.Key() {
          assert last in sels;
        } else {
          var s :| s in front && s.Key() == k;
          assert s in sels;
        }
      }
    }
  }

  predicate DistinctKeyed(sels: seq<Selection>) {
    forall i, j | 0 <= i < j < |sels| :: sels[i].Key() != sels[j].Key()
  }

  lemma {:induction false} FieldValue(v: Json, sels: seq<Selection>, i: nat)
    requires v.JObject? && NarrowFields(v, sels).Ok?
    requires i < |sels| && forall j | i < j < |sels| :: sels[j].Key() != sels[i].Key()
    ensures sels[i].Key() in NarrowFields(v, sels).value
    ensures NarrowField(v, sels[i]) == Ok(NarrowFields(v, sels).value[sels[i].Key()])
  {
    hide NarrowField;
    var front := sels[..|sels| - 1];
    if i < |front| {
      assert front[i] == sels[i];
      FieldValue(v, front, i);
    }
  }

  /**
   The shape of a result: a list keeps its length, an object has exactly the response keys
   of the selections.
   */
  lemma ShapeOfResult(v: Json, sels: seq<Selection>)
    requires Narrow(v, sels).Ok?
    ensures v.JNull? ==> Narrow(v, sels).value == JNull
    ensures v.JList? ==>
              Narrow(v, sels).value.JList? && |Narrow(v, sels).value.items| == |v.items| &&
              forall i | 0 <= i < |v.items| :: Narrow(v.items[i], sels) == Ok(Narrow(v, sels).value.items[i])
    ensures v.JObject? ==>
              Narrow(v, sels).value.JObject? && Narrow(v, sels).value.members.Keys == set s | s in sels :: s.Key()
    ensures !v.JScalar?
  {
    match v {
      case JList(items) =>
        ItemsNarrow(items, sels);
      case JObject(_) =>
        FieldsNarrow(v, sels);
      case _ =>
    }
  }

  // ----- Where each selected leaf of the result comes from

  /** One step of a path: an index into a list, or the position of a selection. */
  datatype Step = At(index: nat) | Pick(selection: nat)

  /**
   What lies at the end of a path through a value, taking members by `named`. A path ends
   at a selection without subfields or at a null.
   */
  function Follow(v: Json, sels: seq<Selection>, path: seq<Step>, named: Selection -> string): Option<Json>
    decreases |path|
  {
    if path == [] then if v.JNull? then Some(JNull) else None
    else match (v, path[0])
      case (JList(items), At(i)) =>
        if i < |items| then Follow(items[i], sels, path[1..], named) else None
      case (JObject(members), Pick(j)) =>
        if j >= |sels| || named(sels[j]) !in members then None
        else if sels[j].selections == [] then if |path| == 1 then Some(members[named(sels[j])]) else None
        else Follow(members[named(sels[j])], sels[j].selections, path[1..], named)
      case _ => None
  }

  function ByName(s: Selection): string {
    s.name
  }

  function ByKey(s: Selection): string {
    s.Key()
  }

  /** No selection set of the tree uses a response key twice. */
  predicate DistinctTree(sels: seq<Selection>) {
    DistinctKeyed(sels) && forall i | 0 <= i < |sels| :: DistinctTree(sels[i].selections)
  }

  /**
   With distinct response keys, following a path through the result by response key finds
   exactly what following it through the original by field name finds: nothing is lost,
   nothing is added, nothing changes place.
   */
  lemma {:induction false} ResultFollowsSource(v: Json, sels: seq<Selection>, path: seq<Step>)
    requires Narrow(v, sels).Ok? && DistinctTree(sels)
    ensures Follow(Narrow(v, sels).value, sels, path, ByKey) == Follow(v, sels, path, ByName)
    decreases |path|
  {
    ShapeOfResult(v, sels);
    var r := Narrow(v, sels).value;
    if path != [] {
      if v.JList? && path[0].At? && path[0].index < |v.items| {
        var i := path[0].index;
        ResultFollowsSource(v.items[i], sels, path[1..]);
      } else if v.JObject? && path[0].Pick? && path[0].selection < |sels| {
        var j := path[0].selection;
        var s := sels[j];
        assert r == JObject(NarrowFields(v, sels).value);
        FieldValue(v, sels, j);
        if s.selections != [] {
          ResultFollowsSource(v.members[s.name], s.selections, path[1..]);
        }
      }
    }
  }

  // ----- Unselected members do not matter

  /** The two values agree on everything the selections look at. */
  predicate Agree(v: Json, w: Json, sels: seq<Selection>)
    decreases v
  {
    match (v, w)
    case (JNull, JNull) => true
    case (JScalar(_), JScalar(_)) => true
    case (JList(xs), JList(ys)) => |xs| == |ys| && forall i | 0 <= i < |xs| :: Agree(xs[i], ys[i], sels)
    case (JObject(ms), JObject(ns)) =>
      forall i | 0 <= i < |sels| :: AgreeOn(v, w, sels[i])
    case _ => false
  }

  predicate AgreeOn(v: Json, w: Json, s: Selection)
    requires v.JObject? && w.JObject?
    decreases v, 0
  {
    (s.name in v.members <==> s.name in w.members) &&
    (s.name in v.members ==>
       if s.selections == [] then v.members[s.name] == w.members[s.name]
       else Agree(v.members[s.name], w.members[s.name], s.selections))
  }

  /** Values that agree on what is selected narrow to the same result, or fail alike. */
  lemma {:induction false} NarrowIgnoresTheRest(v: Json, w: Json, sels: seq<Selection>)
    requires Agree(v, w, sels)
    ensures Narrow(v, sels) == Narrow(w, sels)
    decreases v, 1, 0
  {
    match (v, w) {
      case (JList(xs), JList(ys)) =>
        ItemsIgnoreTheRest(xs, ys, sels);
      case (JObject(_), JObject(_)) =>
        FieldsIgnoreTheRest(v, w, sels);
      case _ =>
    }
  }

  lemma {:induction false} ItemsIgnoreTheRest(xs: seq<Json>, ys: seq<Json>, sels: seq<Selection>)
    requires |xs| == |ys| && forall i | 0 <= i < |xs| :: Agree(xs[i], ys[i], sels)
    ensures NarrowItems(xs, sels) == NarrowItems(ys, sels)
    decreases xs, 0, 0
  {
    hide Narrow, Agree;
    if xs != [] {
      NarrowIgnoresTheRest(xs[0], ys[0], sels);
      ItemsIgnoreTheRest(xs[1..], ys[1..], sels);
    }
  }

  lemma {:induction false} FieldsIgnoreTheRest(v: Json, w: Json, sels: seq<Selection>)
    requires v.JObject? && w.JObject? && forall i | 0 <= i < |sels| :: AgreeOn(v, w, sels[i])
    ensures NarrowFields(v, sels) == NarrowFields(w, sels)
    decreases v, 0, |sels|
  {
    hide Narrow, Agree;
    if sels != [] {
      var last := sels[|sels| - 1];
      FieldsIgnoreTheRest(v, w, sels[..|sels| - 1]);
      assert AgreeOn(v, w, last);
      if last.name in v.members && last.selections != [] {
        NarrowIgnoresTheRest(v.members[last.name], w.members[last.name], last.selections);
      }
    }
  }

  // ----- When narrowing succeeds

  /** Every selected field is there, and only objects, lists and nulls are looked into. */
  predicate Covers(v: Json, sels: seq<Selection>)
    decreases v
  {
    match v
    case JNull => true
    case JScalar(_) => false
    case JList(items) => forall i | 0 <= i < |items| :: Covers(items[i], sels)
    case JObject(members) =>
      forall i | 0 <= i < |sels| ::
        sels[i].name in members && (sels[i].selections != [] ==> Covers(members[sels[i].name], sels[i].selections))
  }

  lemma {:induction false} NarrowSucceeds(v: Json, sels: seq<Selection>)
    ensures Narrow(v, sels).Ok? <==> Covers(v, sels)
    decreases v, 1, 0
  {
    match v {
      case JList(items) =>
        ItemsSucceed(items, sels);
      case JObject(members) =>
        FieldsSucceed(v, sels);
      case _ =>
    }
  }

  lemma {:induction false} ItemsSucceed(items: seq<Json>, sels: seq<Selection>)
    ensures NarrowItems(items, sels).Ok? <==> forall i | 0 <= i < |items| :: Covers(items[i], sels)
    decreases items, 0, 0
  {
    hide Narrow, Covers;
    if items != [] {
      NarrowSucceeds(items[0], sels);
      ItemsSucceed(items[1..], sels);
      assert forall i | 1 <= i < |items| :: items[i] == items[1..][i - 1];
    }
  }

  lemma {:induction false} FieldsSucceed(v: Json, sels: seq<Selection>)
    requires v.JObject?
    ensures NarrowFields(v, sels).Ok? <==>
            forall i | 0 <= i < |sels| ::
              sels[i].name in v.members && (sels[i].selections != [] ==> Covers(v.members[sels[i].name], sels[i].selections))
    decreases v, 0, |sels|
  {
    hide Narrow, Covers;
    if sels != [] {
      var last := sels[|sels| - 1];
      FieldsSucceed(v, sels[..|sels| - 1]);
      if last.name in v.members && last.selections != [] {
        NarrowSucceeds(v.members[last.name], last.selections);
      }
    }
  }

  // ----- The result as the document asks for it

  /** The name under which the document asks for a field: what it writes before the colon, or the field's own name. */
  function WrittenName(c: CSelection): string {
    match c.alias
    case Some(alias) => alias
    case None => c.name
  }

  /** At every level: no name is asked for twice, an alias is not empty, and a set of subfields is not empty. */
  predicate Unambiguous(cs: seq<CSelection>)
    decreases cs
  {
    (forall i, j | 0 <= i < j < |cs| :: WrittenName(cs[i]) != WrittenName(cs[j])) &&
    forall i | 0 <= i < |cs| ::
      cs[i].alias != Some("") && (cs[i].nested.CSet? ==> cs[i].nested.selections != [] && Unambiguous(cs[i].nested.selections))
  }

  /**
   `r` is the part of `v` that the document asks for: an object has exactly the written names,
   each with the member of the field it stands for, or the part of it that is asked for.
   */
  predicate Answers(v: Json, r: Json, cs: seq<CSelection>)
    decreases v, 1
  {
    match (v, r)
    case (JNull, JNull) => true
    case (JList(xs), JList(ys)) => |xs| == |ys| && forall i | 0 <= i < |xs| :: Answers(xs[i], ys[i], cs)
    case (JObject(ms), JObject(ns)) =>
      ns.Keys == (set c | c in cs :: WrittenName(c)) &&
      forall i | 0 <= i < |cs| :: AnswersField(v, ns, cs[i])
    case _ => false
  }

  predicate AnswersField(v: Json, ns: map<string, Json>, c: CSelection)
    requires v.JObject?
    decreases v, 0
  {
    c.name in v.members && WrittenName(c) in ns &&
    match c.nested
    case CLeaf => ns[WrittenName(c)] == v.members[c.name]
    case CSet(more) => Answers(v.members[c.name], ns[WrittenName(c)], more)
  }

  lemma {:induction false} SelectionsAt(cs: seq<CSelection>, i: nat)
    requires i < |cs|
    ensures AbsSelections(cs)[i] == AbsSelection(cs[i])
  {
    hide AbsSelection;
    var front := cs[..|cs| - 1];
    if i < |front| {
      SelectionsAt(front, i);
    }
  }

  lemma KeyAsWritten(c: CSelection)
    requires c.alias != Some("")
    ensures AbsSelection(c).Key() == WrittenName(c) && AbsSelection(c).name == c.name
    ensures c.nested.CLeaf? ==> AbsSelection(c).selections == []
    ensures c.nested.CSet? ==> AbsSelection(c).selections == AbsSelections(c.nested.selections)
  {}

  lemma KeysAsWritten(cs: seq<CSelection>)
    requires Unambiguous(cs)
    ensures DistinctKeyed(AbsSelections(cs))
    ensures (set s | s in AbsSelections(cs) :: s.Key()) == set c | c in cs :: WrittenName(c)
  {
    hide AbsSelections, AbsSelection;
    var sels := AbsSelections(cs);
    forall i | 0 <= i < |cs| ensures sels[i].Key() == WrittenName(cs[i]) {
      SelectionsAt(cs, i);
      KeyAsWritten(cs[i]);
    }
    var keys := set s | s in sels :: s.Key();
    var names := set c | c in cs :: WrittenName(c);
    forall k | k in keys ensures k in names {
      var s :| s in sels && s.Key() == k;
      var i :| 0 <= i < |sels| && sels[i] == s;
      assert cs[i] in cs;
    }
    forall k | k in names ensures k in keys {
      var c :| c in cs && WrittenName(c) == k;
      var i :| 0 <= i < |cs| && cs[i] == c;
      assert sels[i] in sels;
    }
  }

  /** Narrowing by a document that is unambiguous returns the part it asks for, and nothing else. */
  lemma {:induction false} NarrowIff(v: Json, r: Json, cs: seq<CSelection>)
    requires Unambiguous(cs)
    ensures Narrow(v, AbsSelections(cs)) == Ok(r) <==> Answers(v, r, cs)
    decreases v, 1
  {
    hide AbsSelections;
    var sels := AbsSelections(cs);
    match (v, r) {
      case (JList(xs), JList(ys)) =>
        ItemsIff(xs, ys, cs);
      case (JObject(ms), JObject(ns)) =>
        KeysAsWritten(cs);
        if Narrow(v, sels).Ok? {
          ShapeOfResult(v, sels);
          NarrowedAnswers(v, cs);
          if Answers(v, r, cs) {
            SameAnswers(v, NarrowFields(v, sels).value, ns, cs);
          }
        } else if Answers(v, r, cs) {
          AnswersCover(v, r, cs);
          NarrowSucceeds(v, sels);
        }
      case _ =>
    }
  }

  lemma {:induction false} ItemsIff(xs: seq<Json>, ys: seq<Json>, cs: seq<CSelection>)
    requires Unambiguous(cs)
    ensures NarrowItems(xs, AbsSelections(cs)) == Ok(ys) <==> |xs| == |ys| && forall i | 0 <= i < |xs| :: Answers(xs[i], ys[i], cs)
    decreases xs, 0
  {
    hide Narrow, Answers, AbsSelections, Unambiguous;
    if xs != [] && ys != [] {
      NarrowIff(xs[0], ys[0], cs);
      ItemsIff(xs[1..], ys[1..], cs);
      assert ys == [ys[0]] + ys[1..];
      assert forall i | 1 <= i < |xs| :: xs[i] == xs[1..][i - 1];
      assert forall i | 1 <= i < |ys| :: ys[i] == ys[1..][i - 1];
    } else if xs != [] {
      ItemsAreNotEmpty(xs, AbsSelections(cs));
    }
  }

  lemma ItemsAreNotEmpty(xs: seq<Json>, sels: seq<Selection>)
    requires xs != []
    ensures NarrowItems(xs, sels) != Ok([])
  {
    hide Narrow;
  }

  lemma {:induction false} NarrowedAnswers(v: Json, cs: seq<CSelection>)
    requires v.JObject? && Unambiguous(cs) && NarrowFields(v, AbsSelections(cs)).Ok?
    ensures forall i | 0 <= i < |cs| :: AnswersField(v, NarrowFields(v, AbsSelections(cs)).value, cs[i])
    decreases v, 0
  {
    hide AbsSelections, AbsSelection, NarrowFields;
    var sels := AbsSelections(cs);
    KeysAsWritten(cs);
    forall i | 0 <= i < |cs| ensures AnswersField(v, NarrowFields(v, sels).value, cs[i]) {
      SelectionsAt(cs, i);
      KeyAsWritten(cs[i]);
      FieldValue(v, sels, i);
      if cs[i].nested.CSet? {
        var more := cs[i].nested.selections;
        NarrowIff(v.members[cs[i].name], NarrowFields(v, sels).value[sels[i].Key()], more);
      }
    }
  }

  lemma {:induction false} SameAnswers(v: Json, ms: map<string, Json>, ns: map<string, Json>, cs: seq<CSelection>)
    requires v.JObject? && Unambiguous(cs) && ms.Keys == ns.Keys == set c | c in cs :: WrittenName(c)
    requires forall i | 0 <= i < |cs| :: AnswersField(v, ms, cs[i]) && AnswersField(v, ns, cs[i])
    ensures ms == ns
    decreases v, 0
  {
    forall k | k in ms ensures ms[k] == ns[k] {
      var c :| c in cs && WrittenName(c) == k;
      var i :| 0 <= i < |cs| && cs[i] == c;
      assert AnswersField(v, ms, cs[i]) && AnswersField(v, ns, cs[i]);
      if c.nested.CSet? {
        NarrowIff(v.members[c.name], ms[k], c.nested.selections);
        NarrowIff(v.members[c.name], ns[k], c.nested.selections);
      }
    }
  }

  lemma {:induction false} AnswersCover(v: Json, r: Json, cs: seq<CSelection>)
    requires Unambiguous(cs) && Answers(v, r, cs)
    ensures Covers(v, AbsSelections(cs))
    decreases v
  {
    hide AbsSelections, AbsSelection;
    match (v, r) {
      case (JList(xs), JList(ys)) =>
        forall i | 0 <= i < |xs| ensures Covers(xs[i], AbsSelections(cs)) {
          AnswersCover(xs[i], ys[i], cs);
        }
      case (JObject(ms), JObject(ns)) =>
        var sels := AbsSelections(cs);
        forall i | 0 <= i < |sels|
          ensures sels[i].name in ms && (sels[i].selections != [] ==> Covers(ms[sels[i].name], sels[i].selections))
        {
          SelectionsAt(cs, i);
          KeyAsWritten(cs[i]);
          assert AnswersField(v, ns, cs[i]);
          if cs[i].nested.CSet? {
            AnswersCover(ms[cs[i].name], ns[WrittenName(cs[i])], cs[i].nested.selections);
          }
        }
      case _ =>
    }
  }

  // ----- Narrowing a result by another selection set

  /**
   What was narrowed by `first` can be narrowed by `second`, told by the value it was narrowed
   from: every field asked for is a response key, and its value can be looked into again.
   */
  predicate Again(v: Json, first: seq<Selection>, second: seq<Selection>)
    decreases v
  {
    match v
    case JNull => true
    case JScalar(_) => false
    case JList(items) => forall i | 0 <= i < |items| :: Again(items[i], first, second)
    case JObject(members) =>
      forall i | 0 <= i < |second| :: exists j :: 0 <= j < |first| && first[j].Key() == second[i].name && AgainIn(v, first[j], second[i])
  }

  predicate AgainIn(v: Json, s: Selection, t: Selection)
    requires v.JObject?
    decreases v, 0
  {
    t.selections == [] ||
    (s.name in v.members &&
     if s.selections == [] then Covers(v.members[s.name], t.selections)
     else Again(v.members[s.name], s.selections, t.selections))
  }

  lemma {:induction false} SecondSucceedsIff(v: Json, first: seq<Selection>, second: seq<Selection>)
    requires DistinctTree(first) && Narrow(v, first).Ok?
    ensures Narrow(Narrow(v, first).value, second).Ok? <==> Again(v, first, second)
    decreases v
  {
    NarrowSucceeds(Narrow(v, first).value, second);
    match v {
      case JList(items) =>
        ItemsNarrow(items, first);
        forall i | 0 <= i < |items|
          ensures Covers(NarrowItems(items, first).value[i], second) <==> Again(items[i], first, second)
        {
          SecondSucceedsIff(items[i], first, second);
          NarrowSucceeds(Narrow(items[i], first).value, second);
        }
      case JObject(_) =>
        forall i | 0 <= i < |second|
          ensures CoversField(NarrowFields(v, first).value, second[i]) <==>
                  exists j :: 0 <= j < |first| && first[j].Key() == second[i].name && AgainIn(v, first[j], second[i])
        {
          FieldAgain(v, first, second[i]);
        }
      case _ =>
    }
  }

  predicate CoversField(members: map<string, Json>, t: Selection) {
    t.name in members && (t.selections != [] ==> Covers(members[t.name], t.selections))
  }

  lemma {:induction false} FieldAgain(v: Json, first: seq<Selection>, t: Selection)
    requires v.JObject? && DistinctTree(first) && NarrowFields(v, first).Ok?
    ensures CoversField(NarrowFields(v, first).value, t) <==>
            exists j :: 0 <= j < |first| && first[j].Key() == t.name && AgainIn(v, first[j], t)
    decreases v, 0
  {
    forall j | 0 <= j < |first| && first[j].Key() == t.name
      ensures t.name in NarrowFields(v, first).value
      ensures CoversField(NarrowFields(v, first).value, t) <==> AgainIn(v, first[j], t)
    {
      FieldValue(v, first, j);
      var s := first[j];
      if s.selections != [] && t.selections != [] {
        SecondSucceedsIff(v.members[s.name], s.selections, t.selections);
        NarrowSucceeds(Narrow(v.members[s.name], s.selections).value, t.selections);
      }
    }
    if t.name in NarrowFields(v, first).value {
      KeyOfSelection(v, first, t.name);
    }
  }

  lemma KeyOfSelection(v: Json, sels: seq<Selection>, k: string)
    requires v.JObject? && NarrowFields(v, sels).Ok? && k in NarrowFields(v, sels).value
    ensures exists j :: 0 <= j < |sels| && sels[j].Key() == k
  {
    FieldsNarrow(v, sels);
  }

  /**
   `first` keeps what `second` asks for: each of its fields under its own name, and of that
   field everything, or everything that `second` asks for below it.
   */
  predicate Keeps(first: seq<Selection>, second: seq<Selection>) {
    forall i | 0 <= i < |second| :: exists j :: 0 <= j < |first| && KeepsField(first[j], second[i])
  }

  predicate KeepsField(s: Selection, t: Selection) {
    s.Key() == s.name == t.name && (s.selections == [] || (t.selections != [] && Keeps(s.selections, t.selections)))
  }

  /** Narrowing by `first` before `second` makes no difference to any value. */
  ghost predicate Absorbs(first: seq<Selection>, second: seq<Selection>) {
    forall v: Json | Narrow(v, first).Ok? :: Narrow(Narrow(v, first).value, second) == Narrow(v, second)
  }

  lemma {:induction false} SameFields(v: Json, w: Json, sels: seq<Selection>)
    requires v.JObject? && w.JObject?
    requires forall i | 0 <= i < |sels| :: NarrowField(w, sels[i]) == NarrowField(v, sels[i])
    ensures NarrowFields(w, sels) == NarrowFields(v, sels)
  {
    hide NarrowField;
    if sels != [] {
      SameFields(v, w, sels[..|sels| - 1]);
    }
  }

  lemma {:induction false} KeepsAbsorbs(v: Json, first: seq<Selection>, second: seq<Selection>)
    requires DistinctTree(first) && Keeps(first, second) && Narrow(v, first).Ok?
    ensures Narrow(Narrow(v, first).value, second) == Narrow(v, second)
    decreases v, 1
  {
    match v {
      case JList(items) =>
        ItemsAbsorb(items, first, second);
      case JObject(_) =>
        var r := JObject(NarrowFields(v, first).value);
        forall i | 0 <= i < |second| ensures NarrowField(r, second[i]) == NarrowField(v, second[i]) {
          var j :| 0 <= j < |first| && KeepsField(first[j], second[i]);
          FieldAbsorbs(v, first, j, second[i]);
        }
        SameFields(v, r, second);
      case _ =>
    }
  }

  lemma {:induction false} FieldAbsorbs(v: Json, first: seq<Selection>, j: nat, t: Selection)
    requires v.JObject? && DistinctTree(first) && NarrowFields(v, first).Ok? && j < |first| && KeepsField(first[j], t)
    ensures NarrowField(JObject(NarrowFields(v, first).value), t) == NarrowField(v, t)
    decreases v, 0
  {
    FieldValue(v, first, j);
    var s := first[j];
    if s.selections != [] {
      KeepsAbsorbs(v.members[s.name], s.selections, t.selections);
    }
  }

  lemma {:induction false} ItemsAbsorb(items: seq<Json>, first: seq<Selection>, second: seq<Selection>)
    requires DistinctTree(first) && Keeps(first, second) && NarrowItems(items, first).Ok?
    ensures NarrowItems(NarrowItems(items, first).value, second) == NarrowItems(items, second)
    decreases items, 0
  {
    hide Narrow, Keeps, DistinctTree;
    if items != [] {
      KeepsAbsorbs(items[0], first, second);
      ItemsAbsorb(items[1..], first, second);
      var out := NarrowItems(items, first).value;
      assert out[1..] == NarrowItems(items[1..], first).value;
    }
  }

  // ----- Values that any selection with known names can be taken of

  /** All fields of the tree have names in the set. */
  predicate NamesIn(sels: seq<Selection>, names: set<string>) {
    forall i | 0 <= i < |sels| :: sels[i].name in names && NamesIn(sels[i].selections, names)
  }

  lemma {:induction false} MoreNames(sels: seq<Selection>, names: set<string>, more: set<string>)
    requires NamesIn(sels, names) && names <= more
    ensures NamesIn(sels, more)
  {
    forall i | 0 <= i < |sels| ensures NamesIn(sels[i].selections, more) {
      MoreNames(sels[i].selections, names, more);
    }
  }

  lemma {:induction false} NamesOf(sels: seq<Selection>) returns (names: set<string>)
    ensures NamesIn(sels, names)
  {
    names := {};
    for k := 0 to |sels|
      invariant NamesIn(sels[..k], names)
    {
      var below := NamesOf(sels[k].selections);
      var all := names + below + {sels[k].name};
      MoreNames(sels[..k], names, all);
      MoreNames(sels[k].selections, below, all);
      names := all;
    }
    assert sels[..|sels|] == sels;
  }

  /** Null, the empty list, or an object with a tame member of every name. */
  predicate Tame(v: Json, names: set<string>) {
    v == JNull || v == JList([]) || (v.JObject? && names <= v.members.Keys && forall n | n in v.members :: Tame(v.members[n], names))
  }

  lemma {:induction false} TameCovers(v: Json, names: set<string>, sels: seq<Selection>)
    requires Tame(v, names) && NamesIn(sels, names)
    ensures Covers(v, sels)
    decreases v
  {
    if v.JObject? {
      forall i | 0 <= i < |sels| && sels[i].selections != [] ensures Covers(v.members[sels[i].name], sels[i].selections) {
        TameCovers(v.members[sels[i].name], names, sels[i].selections);
      }
    }
  }

  lemma TameNarrows(v: Json, names: set<string>, sels: seq<Selection>)
    requires Tame(v, names) && NamesIn(sels, names)
    ensures Narrow(v, sels).Ok?
  {
    TameCovers(v, names, sels);
    NarrowSucceeds(v, sels);
  }

  /** An object with a null of every name. */
  function Nulls(names: set<string>): (v: Json)
    ensures v.JObject? && Tame(v, names)
  {
    JObject(map n | n in names :: JNull)
  }

  /** The same, but for one name. */
  function Except(names: set<string>, name: string, x: Json): Json {
    JObject((map n | n in names :: JNull)[name := x])
  }

  lemma ExceptIsTame(names: set<string>, name: string, x: Json)
    requires Tame(x, names)
    ensures Tame(Except(names, name, x), names)
  {}

  lemma {:induction false} Longer(names: set<string>) returns (k: string)
    ensures forall n | n in names :: |n| < |k|
  {
    if names == {} {
      k := "x";
    } else {
      var n :| n in names;
      var rest := Longer(names - {n});
      k := rest + n + "x";
    }
  }

  // ----- What is not kept makes a difference

  /** A selection set without some member of the value changes it. */
  lemma DropsAMember(names: set<string>, sels: seq<Selection>) returns (x: Json)
    requires NamesIn(sels, names)
    ensures Tame(x, names) && Narrow(x, sels).Ok? && Narrow(x, sels).value != x
  {
    var keys := set s | s in sels :: s.Key();
    var k := Longer(keys);
    x := Nulls(names + {k});
    TameNarrows(x, names, sels);
    ShapeOfResult(x, sels);
    assert k in x.members;
    assert k !in keys;
  }

  /** A tame object for which narrowing by `first` before `second` does make a difference. */
  lemma {:induction false} Differs(first: seq<Selection>, second: seq<Selection>, names: set<string>) returns (v: Json)
    requires DistinctTree(first) && DistinctTree(second) && NamesIn(first, names) && NamesIn(second, names)
    requires !Keeps(first, second)
    ensures v.JObject? && Tame(v, names)
    ensures Narrow(v, first).Ok? && Narrow(Narrow(v, first).value, second) != Narrow(v, second)
  {
    var i :| 0 <= i < |second| && !exists j :: 0 <= j < |first| && KeepsField(first[j], second[i]);
    var t := second[i];
    if j :| 0 <= j < |first| && first[j].Key() == t.name {
      var x := DifferingMember(first[j], t, names);
      v := Except(names, t.name, x);
      ExceptIsTame(names, t.name, x);
      MemberDiffers(v, first, j, second, i, names);
    } else {
      v := Nulls(names);
      TameNarrows(v, names, first);
      TameNarrows(v, names, second);
      NoSuchKey(v, first, second, i);
    }
  }

  lemma NoSuchKey(v: Json, first: seq<Selection>, second: seq<Selection>, i: nat)
    requires v.JObject? && Narrow(v, first).Ok? && Narrow(v, second).Ok? && i < |second|
    requires forall j | 0 <= j < |first| :: first[j].Key() != second[i].name
    ensures Narrow(Narrow(v, first).value, second) != Narrow(v, second)
  {
    var r := Narrow(v, first).value;
    ShapeOfResult(v, first);
    assert second[i].name !in r.members;
    NarrowSucceeds(r, second);
  }

  /** A member of a tame object on which the field `t` of the second selection differs. */
  lemma {:induction false} DifferingMember(s: Selection, t: Selection, names: set<string>) returns (x: Json)
    requires DistinctTree(s.selections) && DistinctTree(t.selections) && NamesIn(s.selections, names) && NamesIn(t.selections, names)
    requires s.Key() == t.name && !KeepsField(s, t)
    ensures Tame(x, names)
    ensures s.name != t.name ==> x == JList([])
    ensures s.name == t.name ==>
              s.selections != [] && Narrow(x, s.selections).Ok? &&
              if t.selections == [] then Narrow(x, s.selections).value != x
              else Narrow(Narrow(x, s.selections).value, t.selections) != Narrow(x, t.selections)
  {
    if s.name != t.name {
      x := JList([]);
    } else if t.selections == [] {
      x := DropsAMember(names, s.selections);
    } else {
      x := Differs(s.selections, t.selections, names);
    }
  }

  lemma MemberDiffers(v: Json, first: seq<Selection>, j: nat, second: seq<Selection>, i: nat, names: set<string>)
    requires DistinctTree(first) && DistinctTree(second) && NamesIn(first, names) && NamesIn(second, names)
    requires j < |first| && i < |second| && first[j].Key() == second[i].name
    requires Tame(v, names) && v.JObject?
    requires var s, t := first[j], second[i]; var x := v.members[t.name];
             if s.name != t.name then x == JList([]) && v.members[s.name] == JNull
             else
               s.selections != [] && Narrow(x, s.selections).Ok? &&
               if t.selections == [] then Narrow(x, s.selections).value != x
               else Narrow(Narrow(x, s.selections).value, t.selections) != Narrow(x, t.selections)
    ensures Narrow(v, first).Ok? && Narrow(Narrow(v, first).value, second) != Narrow(v, second)
  {
    TameNarrows(v, names, first);
    TameNarrows(v, names, second);
    var s, t := first[j], second[i];
    var r := Narrow(v, first).value;
    FieldValue(v, first, j);
    FieldValue(v, second, i);
    if Narrow(r, second).Ok? {
      FieldValue(r, second, i);
    }
  }

  /** Narrowing by `first` makes no difference to `second` exactly when it keeps what `second` asks for. */
  lemma AbsorbsIff(first: seq<Selection>, second: seq<Selection>)
    requires DistinctTree(first) && DistinctTree(second)
    ensures Absorbs(first, second) <==> Keeps(first, second)
  {
    hide Narrow, Keeps, NamesIn, Tame;
    if Keeps(first, second) {
      forall v: Json | Narrow(v, first).Ok? ensures Narrow(Narrow(v, first).value, second) == Narrow(v, second) {
        KeepsAbsorbs(v, first, second);
      }
    } else {
      var a := NamesOf(first);
      var b := NamesOf(second);
      MoreNames(first, a, a + b);
      MoreNames(second, b, a + b);
      var v := Differs(first, second, a + b);
    }
  }

  /** Narrowing a result again never changes it. */
  ghost predicate Idempotent(sels: seq<Selection>) {
    forall v: Json | Narrow(v, sels).Ok? :: Narrow(Narrow(v, sels).value, sels) == Narrow(v, sels)
  }

  /** With distinct response keys that is so exactly when every field is kept under its own name. */
  lemma TwiceIff(sels: seq<Selection>)
    requires DistinctTree(sels)
    ensures Idempotent(sels) <==> Keeps(sels, sels)
  {
    hide Narrow, Keeps, DistinctTree;
    AbsorbsIff(sels, sels);
  }

  /** No field is renamed and no field is asked for twice, at any level. */
  predicate Plain(sels: seq<Selection>) {
    DistinctKeyed(sels) && forall i | 0 <= i < |sels| :: sels[i].Key() == sels[i].name && Plain(sels[i].selections)
  }

  lemma {:induction false} PlainKeeps(sels: seq<Selection>)
    requires Plain(sels)
    ensures Keeps(sels, sels) && DistinctTree(sels)
  {
    forall i | 0 <= i < |sels| ensures DistinctTree(sels[i].selections) {
      PlainKeeps(sels[i].selections);
    }
    if !Keeps(sels, sels) {
      var i :| 0 <= i < |sels| && !exists j :: 0 <= j < |sels| && KeepsField(sels[j], sels[i]);
      PlainKeeps(sels[i].selections);
    }
  }

  /** Without renamed or repeated fields, narrowing a result again changes nothing. */
  lemma NarrowTwice(sels: seq<Selection>)
    requires Plain(sels)
    ensures Idempotent(sels)
  {
    hide Plain, Idempotent, Keeps, DistinctTree;
    PlainKeeps(sels);
    TwiceIff(sels);
  }

  function Leaf(alias: string, name: string): Selection {
    Selection(alias, name, map[], [])
  }

  /** A renamed field is gone the second time. */
  lemma RenamedFieldIsLost()
    ensures var v, sels := JObject(map["a" := JNull]), [Leaf("x", "a")];
            Narrow(v, sels) == Ok(JObject(map["x" := JNull])) &&
            Narrow(Narrow(v, sels).value, sels) == Err(MissingField("a"))
  {
    var v, sels := JObject(map["a" := JNull]), [Leaf("x", "a")];
    assert sels[..0] == [];
    assert NarrowFields(v, sels) == Ok(map["x" := JNull]);
    assert NarrowField(JObject(map["x" := JNull]), sels[0]) == Err(MissingField("a"));
  }
}
