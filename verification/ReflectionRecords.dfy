/** The records that Reflections.read builds (tools/validate_reflection.py, lines 382-537). */
module ReflectionRecords {
  import opened Collections
  import opened FieldLists
  import opened ReflectionMatcher
  import opened NeedlessSwaps

  datatype Record = Record(fields: seq<Field>, ignored: seq<Field>, swapped: seq<Field>)

  const EMPTY := Record([], [], [])

  type Classes = map<string, Record>

  /**
   * What `read` recognises in the text, in order: a reflection macro with its optional base class
   * and its fields, or an `@ignore` / `@swap` comment with the names it lists.
   */
  datatype Item =
    | Macro(cls: string, base: Option<string>, names: seq<Field>)
    | Ignore(cls: string, names: seq<Field>)
    | Swap(cls: string, names: seq<Field>)

  function Find(classes: Classes, cls: string): Record {
    if cls in classes then classes[cls] else EMPTY
  }

  /** One name added to the list its item is about, or None when an assertion fails. */
  function AddName(rec: Record, item: Item, x: Field): Option<Record> {
    match item
    case Macro(_, _, _) => if x in rec.fields then None else Some(rec.(fields := rec.fields + [x]))
    case Ignore(_, _) => if x in rec.ignored || x in rec.swapped then None else Some(rec.(ignored := rec.ignored + [x]))
    case Swap(_, _) => if x in rec.swapped || x in rec.ignored then None else Some(rec.(swapped := rec.swapped + [x]))
  }

  function AddNames(rec: Record, item: Item, names: seq<Field>): Option<Record> {
    if names == [] then Some(rec)
    else match AddNames(rec, item, names[..|names| - 1])
      case None => None
      case Some(rec') => AddName(rec', item, names[|names| - 1])
  }

  /** A base class is looked up only when it has no record yet, and that lookup then fails. */
  predicate BaseKnown(classes: Classes, item: Item) {
    item.Macro? && item.base.Some? ==> item.base.value in classes
  }

  predicate Creates(item: Item) {
    item.Macro? || item.names != []
  }

  function AddItem(classes: Classes, item: Item): Option<Classes> {
    if !BaseKnown(classes, item) then None
    else match AddNames(Find(classes, item.cls), item, item.names)
      case None => None
      case Some(rec) => Some(if Creates(item) then classes[item.cls := rec] else classes)
  }

  function Build(items: seq<Item>): Option<Classes> {
    if items == [] then Some(map[])
    else match Build(items[..|items| - 1])
      case None => None
      case Some(classes) => AddItem(classes, items[|items| - 1])
  }

  // ---------------------------------------------------------------------------------------
  // The simple reading: concatenate what the text says about one class
  // ---------------------------------------------------------------------------------------

  function Said(rec: Record, item: Item, names: seq<Field>): Record {
    match item
    case Macro(_, _, _) => rec.(fields := rec.fields + names)
    case Ignore(_, _) => rec.(ignored := rec.ignored + names)
    case Swap(_, _) => rec.(swapped := rec.swapped + names)
  }

  function Stated(items: seq<Item>, cls: string): Record {
    if items == [] then EMPTY
    else
      var last := items[|items| - 1];
      var rec := Stated(items[..|items| - 1], cls);
      if last.cls == cls then Said(rec, last, last.names) else rec
  }

  /** Names are kept in the order of the text, each in the list that its item is about, and what is said
      about other classes does not matter. */
  lemma StatedInOrder(cls: string, other: Item, a: seq<Field>, b: seq<Field>, c: seq<Field>, d: seq<Field>)
    requires other.cls != cls
    ensures
      var items := [Macro(cls, None, a), Ignore(cls, b), other, Swap(cls, c), Macro(cls, None, d)];
      Stated(items, cls) == Record(a + d, b, c)
  {
    var first := [Macro(cls, None, a)];
    StatedNext([], first[0], cls);
    assert [] + first == first;
    StatedNext(first, Ignore(cls, b), cls);
    StatedNext(first + [Ignore(cls, b)], other, cls);
    StatedNext(first + [Ignore(cls, b)] + [other], Swap(cls, c), cls);
    StatedNext(first + [Ignore(cls, b)] + [other] + [Swap(cls, c)], Macro(cls, None, d), cls);
    assert [Macro(cls, None, a), Ignore(cls, b), other, Swap(cls, c), Macro(cls, None, d)]
        == first + [Ignore(cls, b)] + [other] + [Swap(cls, c)] + [Macro(cls, None, d)];
  }

  lemma StatedNext(items: seq<Item>, item: Item, cls: string)
    ensures Stated(items + [item], cls) == if item.cls == cls then Said(Stated(items, cls), item, item.names) else Stated(items, cls)
  {
    assert (items + [item])[..|items|] == items;
  }

  predicate Consistent(rec: Record) {
    NoDup(rec.fields) && NoDup(rec.ignored) && NoDup(rec.swapped) && forall x :: x in rec.ignored ==> x !in rec.swapped
  }

  predicate Mentioned(items: seq<Item>, cls: string) {
    exists i :: 0 <= i < |items| && items[i].cls == cls && (items[i].Macro? || items[i].names != [])
  }

  predicate BaseFirst(items: seq<Item>, i: nat)
    requires i < |items|
  {
    items[i].Macro? && items[i].base.Some? ==> Mentioned(items[..i], items[i].base.value)
  }

  /** Every base class has been mentioned before the macro that names it. */
  predicate BasesFirst(items: seq<Item>) {
    forall i :: 0 <= i < |items| ==> BaseFirst(items, i)
  }

  lemma ConsistentStep(rec: Record, item: Item, x: Field)
    requires Consistent(rec)
    ensures AddName(rec, item, x).Some? <==> Consistent(Said(rec, item, [x]))
    ensures AddName(rec, item, x).Some? ==> AddName(rec, item, x).value == Said(rec, item, [x])
  {
    var list := if item.Macro? then rec.fields else if item.Ignore? then rec.ignored else rec.swapped;
    var i := |list|;
    assert (list + [x])[i] == x;
    if x in list {
      var k :| 0 <= k < |list| && list[k] == x;
      assert (list + [x])[k] == (list + [x])[i];
    }
    assert x in list + [x];
  }

  /** Inconsistency never goes away by adding more names. */
  lemma ConsistentPrefix(rec: Record, item: Item, names: seq<Field>, x: Field)
    requires Consistent(Said(rec, item, names + [x]))
    ensures Consistent(Said(rec, item, names))
  {
    var list := if item.Macro? then rec.fields else if item.Ignore? then rec.ignored else rec.swapped;
    assert list + (names + [x]) == (list + names) + [x];
    var whole, part := list + (names + [x]), list + names;
    assert forall i :: 0 <= i < |part| ==> part[i] == whole[i];
    assert forall y :: y in part ==> y in whole;
  }

  lemma {:induction false} AddNamesExactly(rec: Record, item: Item, names: seq<Field>)
    requires Consistent(rec)
    ensures AddNames(rec, item, names).Some? <==> Consistent(Said(rec, item, names))
    ensures AddNames(rec, item, names).Some? ==> AddNames(rec, item, names).value == Said(rec, item, names)
  {
    if names == [] {
      assert rec == Said(rec, item, []);
    } else {
      var n := |names| - 1;
      var init, x := names[..n], names[n];
      assert names == init + [x];
      AddNamesExactly(rec, item, init);
      assert Said(Said(rec, item, init), item, [x]) == Said(rec, item, names) by {
        assert forall list: seq<Field> :: (list + init) + [x] == list + names;
      }
      if Consistent(Said(rec, item, init)) {
        ConsistentStep(Said(rec, item, init), item, x);
      } else if Consistent(Said(rec, item, names)) {
        ConsistentPrefix(rec, item, init, x);
      }
    }
  }

  lemma SaidNothing(rec: Record, item: Item)
    ensures Said(rec, item, []) == rec
  {
  }

  lemma {:induction false} ConsistentBefore(rec: Record, item: Item, names: seq<Field>)
    requires Consistent(Said(rec, item, names))
    ensures Consistent(rec)
  {
    if names == [] {
      SaidNothing(rec, item);
    } else {
      var n := |names| - 1;
      assert names == names[..n] + [names[n]];
      ConsistentPrefix(rec, item, names[..n], names[n]);
      ConsistentBefore(rec, item, names[..n]);
    }
  }

  lemma MentionedSnoc(items: seq<Item>, cls: string)
    requires items != []
    ensures var n := |items| - 1;
      Mentioned(items, cls) <==> Mentioned(items[..n], cls) || (items[n].cls == cls && Creates(items[n]))
  {
    var n := |items| - 1;
    if i :| 0 <= i < n && items[i].cls == cls && Creates(items[i]) {
      assert items[..n][i] == items[i];
    }
  }

  lemma BasesFirstSnoc(items: seq<Item>)
    requires items != []
    ensures var n := |items| - 1;
      BasesFirst(items) <==> BasesFirst(items[..n]) && BaseFirst(items, n)
  {
    var n := |items| - 1;
    forall i | 0 <= i < n ensures BaseFirst(items, i) <==> BaseFirst(items[..n], i) {
      assert items[..n][i] == items[i] && items[..n][..i] == items[..i];
    }
  }

  /** What the text says about one class repeats no name and does not both ignore and swap one. */
  predicate ConsistentClass(items: seq<Item>, cls: string) {
    Consistent(Stated(items, cls))
  }

  /** One class has a record exactly when the text mentions it, and then holds what the text says. */
  predicate Recorded(classes: Classes, items: seq<Item>, cls: string) {
    (cls in classes <==> Mentioned(items, cls)) && Find(classes, cls) == Stated(items, cls)
  }

  lemma AddItemExactly(init: seq<Item>, last: Item, classes: Classes)
    requires forall c :: Recorded(classes, init, c)
    requires forall c :: ConsistentClass(init, c)
    ensures var items := init + [last];
      AddItem(classes, last).Some? <==> BaseKnown(classes, last) && ConsistentClass(items, last.cls)
    ensures AddItem(classes, last).Some? ==> forall c :: Recorded(AddItem(classes, last).value, init + [last], c)
  {
    var items := init + [last];
    assert items[..|items| - 1] == init;
    var rec := Stated(init, last.cls);
    assert Recorded(classes, init, last.cls) && ConsistentClass(init, last.cls);
    AddNamesExactly(rec, last, last.names);
    SaidNothing(rec, last);
    if AddItem(classes, last).Some? {
      forall c ensures Recorded(AddItem(classes, last).value, items, c) {
        assert Recorded(classes, init, c);
        MentionedSnoc(items, c);
      }
    }
  }

  /** Reading succeeds exactly on consistent text and then records exactly what the text says. */
  lemma {:induction false} BuildExactly(items: seq<Item>)
    ensures Build(items).Some? <==> BasesFirst(items) && forall c :: ConsistentClass(items, c)
    ensures Build(items).Some? ==> forall c :: Recorded(Build(items).value, items, c)
  {
    if items == [] {
    } else {
      var n := |items| - 1;
      var init, last := items[..n], items[n];
      assert items == init + [last];
      BuildExactly(init);
      BasesFirstSnoc(items);
      forall c
        ensures c != last.cls ==> (ConsistentClass(items, c) <==> ConsistentClass(init, c))
        ensures ConsistentClass(items, c) ==> ConsistentClass(init, c)
      {
        if c == last.cls && ConsistentClass(items, c) {
          ConsistentBefore(Stated(init, c), last, last.names);
        }
      }
      if Build(init).Some? {
        AddItemExactly(init, last, Build(init).value);
        assert BaseKnown(Build(init).value, last) <==> BaseFirst(items, n) by {
          if last.Macro? && last.base.Some? {
            assert Recorded(Build(init).value, init, last.base.value);
          }
        }
      }
    }
  }

  /** In particular a text of one macro with a base class is not read, whatever its fields are. */
  lemma BaseWithoutRecordFails(cls: string, base: string, names: seq<Field>)
    ensures Build([Macro(cls, Some(base), names)]).None?
  {
    var items := [Macro(cls, Some(base), names)];
    assert items[..0] == [];
    assert Build([]) == Some(map[]);
  }

  // ---------------------------------------------------------------------------------------
  // From records to verdicts
  // ---------------------------------------------------------------------------------------

  /** Lines 624-628: an object's `id` is ignored unless it is mentioned. */
  function EffectiveIgnores(rec: Record, ignoreId: bool): seq<Field> {
    if ignoreId && "id" !in rec.ignored && "id" !in rec.fields then rec.ignored + ["id"] else rec.ignored
  }

  function Validate(F: seq<Field>, rec: Record, ignoreId: bool): Verdict {
    Verify(F, rec.fields, rec.swapped, EffectiveIgnores(rec, ignoreId))
  }

  lemma RecordsAreWellFormed(rec: Record, ignoreId: bool)
    requires Consistent(rec)
    ensures WellFormedRecord(rec.fields, rec.swapped, EffectiveIgnores(rec, ignoreId))
  {
    if ignoreId && "id" !in rec.ignored {
      NoDupAppend(rec.ignored, "id");
    }
  }

  /** From the text to the verdict: what a file must say for one of its classes to pass. */
  lemma ValidateExactly(items: seq<Item>, cls: string, F: seq<Field>, ignoreId: bool)
    requires Build(items).Some? && cls in Build(items).value
    ensures var said := Stated(items, cls);
      var ignored := if ignoreId && "id" !in said.fields && "id" !in said.ignored then said.ignored + ["id"] else said.ignored;
      Validate(F, Build(items).value[cls], ignoreId).Accept? <==>
        Corresponds(F, said.fields, said.swapped, ignored) && NoRedundantSwap(F, said.fields, said.swapped)
  {
    BuildExactly(items);
    var rec := Build(items).value[cls];
    assert Recorded(Build(items).value, items, cls) && ConsistentClass(items, cls);
    RecordsAreWellFormed(rec, ignoreId);
    AcceptsExactly(F, rec.fields, rec.swapped, EffectiveIgnores(rec, ignoreId));
  }

  /** What the implicit `id` of an object does: a class with an `id` that its record does not name passes
      exactly when it is an object, the `id` is not declared swapped, and the rest corresponds. */
  lemma ImplicitIdExactly(F: seq<Field>, rec: Record, ignoreId: bool)
    requires Consistent(rec) && "id" in F && "id" !in rec.fields && "id" !in rec.ignored
    ensures Validate(F, rec, ignoreId).Accept? <==>
      && ignoreId && "id" !in rec.swapped
      && Corresponds(F, rec.fields, rec.swapped, rec.ignored + ["id"])
      && NoRedundantSwap(F, rec.fields, rec.swapped)
  {
    RecordsAreWellFormed(rec, ignoreId);
    AcceptsExactly(F, rec.fields, rec.swapped, EffectiveIgnores(rec, ignoreId));
    if !ignoreId {
      assert !Placed(F, rec.fields, rec.swapped, rec.ignored, "id");
    } else {
      assert "id" in rec.swapped ==> !Placed(F, rec.fields, rec.swapped, rec.ignored + ["id"], "id");
    }
  }

  /** So a class passes without its `id`, all else being reflected in order, exactly when it is an object. */
  lemma ImplicitIdPasses(F: seq<Field>, ignoreId: bool)
    requires NoDup(F) && "id" in F
    ensures Validate(F, Record(Without(F, {"id"}), [], []), ignoreId).Accept? <==> ignoreId
  {
    var id: Field := "id";
    var none, ids, R: seq<Field> := [], [id], Without(F, {id});
    assert Elems(ids) == {id} && none + [id] == ids;
    WithoutMembers(F, {id});
    WithoutNoDup(F, {id});
    ImplicitIdExactly(F, Record(R, none, none), ignoreId);
    UnchangedOrderExactly(F, R, none, ids);
    AcceptsExactly(F, R, none, ids);
  }

  /** An object whose `id` is declared swapped but neither reflected nor ignored never passes. */
  lemma SwappedImplicitIdRejected(F: seq<Field>, rec: Record)
    requires Consistent(rec) && "id" in rec.swapped && "id" !in rec.ignored && "id" !in rec.fields
    ensures Validate(F, rec, true).Reject?
  {
    RecordsAreWellFormed(rec, true);
    SwappedAndIgnoredRejected(F, rec.fields, rec.swapped, EffectiveIgnores(rec, true), "id");
  }

  // ---------------------------------------------------------------------------------------
  // The whole file
  // ---------------------------------------------------------------------------------------

  /** What the scopes of the file say about a class: its fields, and whether it is an object with an id. */
  datatype Definition = Definition(fields: seq<Field>, ignoreId: bool)

  type Definitions = map<string, Definition>

  const ID_TYPE := "::id_type"

  /** A name that ends in `::id_type`, with something in front. */
  predicate IsIdType(cls: string) {
    |ID_TYPE| < |cls| && cls[|cls| - |ID_TYPE|..] == ID_TYPE
  }

  /** The id type of an object is not looked at, whether or not it matches; every other class must be defined. */
  predicate Skipped(defs: Definitions, cls: string) {
    IsIdType(cls) && var owner := cls[..|cls| - |ID_TYPE|]; owner in defs && defs[owner].ignoreId
  }

  predicate Passes(defs: Definitions, cls: string, rec: Record) {
    if cls in defs then Validate(defs[cls].fields, rec, defs[cls].ignoreId).Accept? else Skipped(defs, cls)
  }

  predicate AllPass(defs: Definitions, classes: Classes) {
    forall c :: c in classes ==> Passes(defs, c, classes[c])
  }

  predicate FilePasses(items: seq<Item>, defs: Definitions) {
    Build(items).Some? && AllPass(defs, Build(items).value)
  }

  /** What the text says about one class corresponds to its definition. */
  ghost predicate Conforms(items: seq<Item>, defs: Definitions, cls: string) {
    var said := Stated(items, cls);
    if cls in defs then
      var implicit := defs[cls].ignoreId && "id" !in said.fields && "id" !in said.ignored;
      && Corresponds(defs[cls].fields, said.fields, said.swapped, if implicit then said.ignored + ["id"] else said.ignored)
      && NoRedundantSwap(defs[cls].fields, said.fields, said.swapped)
    else exists owner :: owner in defs && owner != [] && defs[owner].ignoreId && cls == owner + "::id_type"
  }

  /** A class without a definition is skipped exactly when it is the id type of an object. */
  lemma SkippedExactly(defs: Definitions, cls: string)
    ensures Skipped(defs, cls) <==>
      exists owner :: owner in defs && owner != [] && defs[owner].ignoreId && cls == owner + "::id_type"
  {
    if Skipped(defs, cls) {
      var owner := cls[..|cls| - |ID_TYPE|];
      assert cls == owner + "::id_type";
    }
    if owner :| owner in defs && owner != [] && defs[owner].ignoreId && cls == owner + "::id_type" {
      assert cls[..|cls| - |ID_TYPE|] == owner;
    }
  }

  /** A file passes if and only if its base classes come first, what it says about each class is
      consistent, and every class it mentions conforms. */
  lemma FilePassesExactly(items: seq<Item>, defs: Definitions)
    ensures FilePasses(items, defs) <==>
      && BasesFirst(items)
      && (forall c :: ConsistentClass(items, c))
      && (forall c :: Mentioned(items, c) ==> Conforms(items, defs, c))
  {
    BuildExactly(items);
    if Build(items).Some? {
      var classes := Build(items).value;
      forall c
        ensures c in classes <==> Mentioned(items, c)
        ensures c in classes ==> (Passes(defs, c, classes[c]) <==> Conforms(items, defs, c))
      {
        assert Recorded(classes, items, c);
        SkippedExactly(defs, c);
        if c in classes && c in defs {
          ValidateExactly(items, c, defs[c].fields, defs[c].ignoreId);
        }
      }
    }
  }

  method ValidateClass(defs: Definitions, cls: string, rec: Record) returns (ok: bool)
    ensures ok <==> Passes(defs, cls, rec)
  {
    if cls !in defs {
      if !IsIdType(cls) {
        return false;
      }
      var owner := cls[..|cls| - |ID_TYPE|];
      return owner in defs && defs[owner].ignoreId;
    }
    var ignored := rec.ignored;
    if defs[cls].ignoreId && "id" !in rec.ignored && "id" !in rec.fields {
      ignored := ignored + ["id"];
    }
    var verdict := Match(defs[cls].fields, rec.fields, rec.swapped, ignored);
    ok := verdict.Accept?;
  }

  /** The loop over the recorded classes, in the order `names` in which they were added. */
  method ValidateAll(defs: Definitions, classes: Classes, names: seq<string>) returns (ok: bool)
    requires Elems(names) == classes.Keys
    ensures ok <==> AllPass(defs, classes)
  {
    for i := 0 to |names|
      invariant forall k :: 0 <= k < i ==> Passes(defs, names[k], classes[names[k]])
    {
      ok := ValidateClass(defs, names[i], classes[names[i]]);
      if !ok {
        return false;
      }
    }
    ok := true;
  }

  // ---------------------------------------------------------------------------------------
  // The object that holds the records
  // ---------------------------------------------------------------------------------------

  class Reflections {
    var classes: Classes

    constructor ()
      ensures classes == map[] && Build([]) == Some(classes)
    {
      classes := map[];
    }

    method FindOrAdd(cls: string)
      modifies this
      ensures classes == old(classes)[cls := Find(old(classes), cls)]
    {
      if cls !in classes {
        classes := classes[cls := EMPTY];
      }
    }

    method AddField(cls: string, x: Field) returns (ok: bool)
      modifies this
      ensures ok <==> x !in Find(old(classes), cls).fields
      ensures var rec := Find(old(classes), cls);
        ok ==> classes == old(classes)[cls := rec.(fields := rec.fields + [x])]
    {
      FindOrAdd(cls);
      if x in classes[cls].fields { return false; }
      classes := classes[cls := classes[cls].(fields := classes[cls].fields + [x])];
      ok := true;
    }

    /** Adds a macro's fields one by one; a base class without a record of its own ends the run. */
    method AddFields(cls: string, base: Option<string>, fields: seq<Field>) returns (ok: bool)
      modifies this
      ensures ok <==> AddItem(old(classes), Macro(cls, base, fields)).Some?
      ensures ok ==> classes == AddItem(old(classes), Macro(cls, base, fields)).value
    {
      ghost var item := Macro(cls, base, fields);
      var derived := if base.Some? && base.value in classes then None else base;
      for i := 0 to |fields|
        invariant AddNames(Find(old(classes), cls), item, fields[..i]) == Some(Find(classes, cls))
        invariant classes == (if i == 0 then old(classes) else old(classes)[cls := Find(classes, cls)])
      {
        assert fields[..i + 1][..i] == fields[..i];
        var added := AddField(cls, fields[i]);
        if !added {
          AddNamesFailsEarly(Find(old(classes), cls), item, fields, i + 1);
          return false;
        }
      }
      assert fields[..|fields|] == fields;
      if derived.Some? { return false; }
      FindOrAdd(cls);
      ok := true;
    }

    /** Adds the names of one comment to the ignored or to the swapped list. */
    method AddIgnoreSwaps(cls: string, names: seq<Field>, ignore: bool) returns (ok: bool)
      modifies this
      ensures var item := if ignore then Ignore(cls, names) else Swap(cls, names);
        && (ok <==> AddItem(old(classes), item).Some?)
        && (ok ==> classes == AddItem(old(classes), item).value)
    {
      ghost var item := if ignore then Ignore(cls, names) else Swap(cls, names);
      for i := 0 to |names|
        invariant AddNames(Find(old(classes), cls), item, names[..i]) == Some(Find(classes, cls))
        invariant classes == (if i == 0 then old(classes) else old(classes)[cls := Find(classes, cls)])
      {
        AddNamesNext(Find(old(classes), cls), item, names, i);
        FindOrAdd(cls);
        var rec, x := classes[cls], names[i];
        if x in rec.ignored || x in rec.swapped {
          AddNamesFailsEarly(Find(old(classes), cls), item, names, i + 1);
          return false;
        }
        classes := classes[cls := if ignore then rec.(ignored := rec.ignored + [x]) else rec.(swapped := rec.swapped + [x])];
      }
      assert names[..|names|] == names;
      ok := true;
    }
  }

  lemma AddNamesNext(rec: Record, item: Item, names: seq<Field>, i: nat)
    requires i < |names| && AddNames(rec, item, names[..i]).Some?
    ensures AddNames(rec, item, names[..i + 1]) == AddName(AddNames(rec, item, names[..i]).value, item, names[i])
  {
    assert names[..i + 1][..i] == names[..i];
  }

  lemma {:induction false} AddNamesFailsEarly(rec: Record, item: Item, names: seq<Field>, n: nat)
    requires n <= |names| && AddNames(rec, item, names[..n]).None?
    ensures AddNames(rec, item, names).None?
    decreases |names| - n
  {
    if n == |names| {
      assert names[..n] == names;
    } else {
      assert names[..n + 1][..n] == names[..n];
      AddNamesFailsEarly(rec, item, names, n + 1);
    }
  }
}
