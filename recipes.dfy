/**
 * The Recipes page. A recipe is not a row of its own: it is the set of
 * ingredient lines that share a recipe name. The page groups the lines by
 * name for its table, edits one recipe's lines in a buffer, and saves the
 * buffer by diffing it against the ids the recipe had when it was opened:
 * lines that disappeared are deleted, lines with an id are updated one by
 * one, lines without one are inserted together, and the first store error
 * stops the save. The store is a parameter `accept`, which answers, for
 * the log of operations issued so far, whether the last one succeeded.
 */
module Recipes {
  import opened Wrappers
  import opened JsText
  import opened JsNumber
  import opened Lists
  import opened Sorting
  import opened Grouping

  /** `quantity_base`: a number, or text when the value came back from the store as a string. */
  datatype Quantity = Num(n: Number) | Str(s: string)

  datatype RecipeLine = RecipeLine(
    id: Option<int>,
    name: string,
    typeId: Option<int>,
    ingredientId: int,
    quantity: Quantity,
    unit: Option<string>,
    ingredientName: Option<string>)

  datatype Ingredient = Ingredient(id: int, name: string)

  datatype RecipeType = RecipeType(id: int, name: string)

  datatype GroupedRecipe = GroupedRecipe(name: string, typeId: Option<int>, typeName: Option<string>, lines: seq<RecipeLine>)

  function LineName(l: RecipeLine): string { l.name }

  function RecipeName(r: GroupedRecipe): string { r.name }

  // ----- The grouped table

  /** `recipeTypes.find(t => t.id === id)`: the index of the first type with that id, or -1. */
  function FindType(types: seq<RecipeType>, id: Option<int>): (i: int)
    ensures -1 <= i < |types|
    ensures i >= 0 ==> Some(types[i].id) == id && forall j :: 0 <= j < i ==> Some(types[j].id) != id
    ensures i == -1 ==> forall j :: 0 <= j < |types| ==> Some(types[j].id) != id
  {
    if types == [] then -1
    else if Some(types[0].id) == id then 0
    else
      var i := FindType(types[1..], id);
      if i < 0 then -1 else i + 1
  }

  /** `recipeTypes.find(t => t.id === id)?.name`. */
  function TypeName(types: seq<RecipeType>, id: Option<int>): Option<string> {
    var i := FindType(types, id);
    if i < 0 then None else Some(types[i].name)
  }

  /** The group of the name `k`: its lines in input order, typed by the first of them. */
  function GroupFor(items: seq<RecipeLine>, types: seq<RecipeType>, k: string): GroupedRecipe {
    var m := Members(items, LineName, k);
    if m == [] then GroupedRecipe(k, None, None, [])
    else GroupedRecipe(k, m[0].typeId, TypeName(types, m[0].typeId), m)
  }

  /** One more line changes only the group of its name: it opens it, or joins it at the end. */
  lemma GroupForStep(items: seq<RecipeLine>, types: seq<RecipeType>, i: int, k: string)
    requires 0 <= i < |items|
    ensures var x := items[i];
      && (x.name != k ==> GroupFor(items[..i + 1], types, k) == GroupFor(items[..i], types, k))
      && (x.name == k && Members(items[..i], LineName, k) == [] ==>
        GroupFor(items[..i + 1], types, k) == GroupedRecipe(k, x.typeId, TypeName(types, x.typeId), [x]))
      && (x.name == k && Members(items[..i], LineName, k) != [] ==>
        GroupFor(items[..i + 1], types, k) == GroupFor(items[..i], types, k).(lines := Members(items[..i], LineName, k) + [x]))
  {
    assert items[..i + 1][..i] == items[..i];
  }

  /** `Array.from(map.values())`: the groups of the keys `ks`, in that order. */
  function AllGroups(items: seq<RecipeLine>, types: seq<RecipeType>, ks: seq<string>): (r: seq<GroupedRecipe>)
    ensures |r| == |ks|
    ensures forall i :: 0 <= i < |ks| ==> r[i] == GroupFor(items, types, ks[i])
  {
    if ks == [] then [] else AllGroups(items, types, ks[..|ks| - 1]) + [GroupFor(items, types, ks[|ks| - 1])]
  }

  /** The groups whose lower-cased name contains `q`. */
  function NameFilter(list: seq<GroupedRecipe>, q: string): (r: seq<GroupedRecipe>)
    ensures |r| <= |list|
  {
    if list == [] then []
    else (if Includes(ToLower(list[0].name), q) then [list[0]] else []) + NameFilter(list[1..], q)
  }

  /** The search box: a blank term shows everything, otherwise the (untrimmed) term is matched. */
  function Matching(list: seq<GroupedRecipe>, search: string): seq<GroupedRecipe> {
    if Trim(search) == [] then list else NameFilter(list, ToLower(search))
  }

  /** Whether a recipe name is shown for the search term. */
  predicate Shown(name: string, search: string) {
    Trim(search) == [] || Includes(ToLower(name), ToLower(search))
  }

  /** What `grouped` computes. */
  function GroupedView(allLines: seq<RecipeLine>, types: seq<RecipeType>, search: string): seq<GroupedRecipe> {
    SortBy(Matching(AllGroups(allLines, types, KeysInOrder(allLines, LineName)), search), RecipeName, false)
  }

  /** The `Map` loop of `grouped`: `keys` is the map's insertion order. */
  method GroupLines(allLines: seq<RecipeLine>, types: seq<RecipeType>) returns (keys: seq<string>, groups: map<string, GroupedRecipe>)
    ensures keys == KeysInOrder(allLines, LineName)
    ensures forall k :: k in groups <==> k in keys
    ensures forall k :: k in groups ==> groups[k] == GroupFor(allLines, types, k)
  {
    keys, groups := [], map[];
    for i := 0 to |allLines|
      invariant keys == KeysInOrder(allLines[..i], LineName)
      invariant forall k :: k in groups <==> k in keys
      invariant forall k :: k in groups ==> groups[k] == GroupFor(allLines[..i], types, k)
    {
      var line := allLines[i];
      var key := line.name;
      assert allLines[..i + 1][..i] == allLines[..i];
      assert allLines[..i + 1][i] == line;
      MembersOfListed(allLines[..i], LineName, key);
      if key !in groups {
        groups := groups[key := GroupedRecipe(key, line.typeId, TypeName(types, line.typeId), [])];
        keys := keys + [key];
      }
      groups := groups[key := groups[key].(lines := groups[key].lines + [line])];
      forall k | k in groups ensures groups[k] == GroupFor(allLines[..i + 1], types, k) {
        GroupForStep(allLines, types, i, k);
      }
    }
    assert allLines[..|allLines|] == allLines;
  }

  /** `grouped`: the groups in first-seen order, then the search filter and the sort by name. */
  method Grouped(allLines: seq<RecipeLine>, types: seq<RecipeType>, search: string) returns (list: seq<GroupedRecipe>)
    ensures list == GroupedView(allLines, types, search)
  {
    var keys, groups := GroupLines(allLines, types);
    list := [];
    for j := 0 to |keys|
      invariant list == AllGroups(allLines, types, keys[..j])
    {
      assert keys[..j + 1][..j] == keys[..j];
      list := list + [groups[keys[j]]];
    }
    assert keys[..|keys|] == keys;
    list := Matching(list, search);
    list := SortBy(list, RecipeName, false);
  }

  lemma {:induction false} NameFilterElements(list: seq<GroupedRecipe>, q: string, r: GroupedRecipe)
    ensures r in NameFilter(list, q) <==> r in list && Includes(ToLower(r.name), q)
    decreases |list|
  {
    if list != [] {
      NameFilterElements(list[1..], q, r);
      assert r in list <==> r == list[0] || r in list[1..] by { assert list == [list[0]] + list[1..]; }
    }
  }

  lemma {:induction false} NameFilterDistinct(list: seq<GroupedRecipe>, q: string)
    requires DistinctKeys(list, RecipeName)
    ensures DistinctKeys(NameFilter(list, q), RecipeName)
    decreases |list|
  {
    if list != [] {
      var tail := list[1..];
      assert DistinctKeys(tail, RecipeName) by {
        forall i, j | 0 <= i < j < |tail| ensures tail[i].name != tail[j].name {
          assert tail[i] == list[i + 1] && tail[j] == list[j + 1];
        }
      }
      NameFilterDistinct(tail, q);
      var f := NameFilter(tail, q);
      if Includes(ToLower(list[0].name), q) {
        var r := [list[0]] + f;
        forall i, j | 0 <= i < j < |r| ensures r[i].name != r[j].name {
          if i == 0 {
            assert r[j] == f[j - 1];
            NameFilterElements(tail, q, f[j - 1]);
            var m :| 0 <= m < |tail| && tail[m] == f[j - 1];
            assert list[m + 1] == f[j - 1];
          } else {
            assert r[i] == f[i - 1] && r[j] == f[j - 1];
          }
        }
      }
    }
  }

  lemma MatchingDistinct(list: seq<GroupedRecipe>, search: string)
    requires DistinctKeys(list, RecipeName)
    ensures DistinctKeys(Matching(list, search), RecipeName)
  {
    if Trim(search) != [] {
      NameFilterDistinct(list, ToLower(search));
    }
  }

  lemma MatchingElements(list: seq<GroupedRecipe>, search: string, r: GroupedRecipe)
    ensures r in Matching(list, search) <==> r in list && Shown(r.name, search)
  {
    if Trim(search) != [] {
      NameFilterElements(list, ToLower(search), r);
    }
  }

  /** The groups of distinct keys have distinct names. */
  lemma AllGroupsDistinct(items: seq<RecipeLine>, types: seq<RecipeType>)
    ensures DistinctKeys(AllGroups(items, types, KeysInOrder(items, LineName)), RecipeName)
  {
    KeysDistinct(items, LineName);
  }

  /** A group of the table is the group of its name, in the table exactly when the name is shown. */
  lemma {:induction false} InView(allLines: seq<RecipeLine>, types: seq<RecipeType>, search: string, r: GroupedRecipe)
    ensures r in GroupedView(allLines, types, search) <==>
      r.name in KeysInOrder(allLines, LineName) && r == GroupFor(allLines, types, r.name) && Shown(r.name, search)
  {
    var ks := KeysInOrder(allLines, LineName);
    var all := AllGroups(allLines, types, ks);
    SortElements(Matching(all, search), RecipeName, false);
    MatchingElements(all, search, r);
    if r in all {
      var i :| 0 <= i < |all| && all[i] == r;
      assert ks[i] in ks;
    }
    if r.name in ks && r == GroupFor(allLines, types, r.name) {
      var i :| 0 <= i < |ks| && ks[i] == r.name;
      assert all[i] == r;
    }
  }

  /** `grouped` lists each name once, in ascending order. */
  lemma GroupedSorted(allLines: seq<RecipeLine>, types: seq<RecipeType>, search: string)
    ensures StrictlySorted(GroupedView(allLines, types, search), RecipeName, false)
  {
    var all := AllGroups(allLines, types, KeysInOrder(allLines, LineName));
    AllGroupsDistinct(allLines, types);
    MatchingDistinct(all, search);
    SortStrict(Matching(all, search), RecipeName, false);
  }

  /**
   * Each group of `grouped` holds exactly the lines with its name, in input
   * order, at least one of them, and takes its type from the first one.
   */
  lemma GroupContents(allLines: seq<RecipeLine>, types: seq<RecipeType>, search: string, r: GroupedRecipe)
    requires r in GroupedView(allLines, types, search)
    ensures r.lines == Members(allLines, LineName, r.name) && r.lines != []
    ensures forall l :: l in r.lines ==> l.name == r.name
    ensures r.typeId == r.lines[0].typeId && r.typeName == TypeName(types, r.typeId)
    ensures Shown(r.name, search)
  {
    InView(allLines, types, search, r);
    MembersOfListed(allLines, LineName, r.name);
    MembersHaveKey(allLines, LineName, r.name);
  }

  /** Every line whose name the search shows is in the group of its name. */
  lemma LineGrouped(allLines: seq<RecipeLine>, types: seq<RecipeType>, search: string, j: int)
    requires 0 <= j < |allLines| && Shown(allLines[j].name, search)
    ensures var g := GroupFor(allLines, types, allLines[j].name);
      g in GroupedView(allLines, types, search) && allLines[j] in g.lines
  {
    var k := allLines[j].name;
    KeysComplete(allLines, LineName, k);
    ItemInGroup(allLines, LineName, j);
    InView(allLines, types, search, GroupFor(allLines, types, k));
  }

  /** The first line of a group is the first line of the input with that name. */
  lemma GroupTypeFromFirstLine(allLines: seq<RecipeLine>, types: seq<RecipeType>, j: int)
    requires 0 <= j < |allLines|
    requires forall i :: 0 <= i < j ==> allLines[i].name != allLines[j].name
    ensures GroupFor(allLines, types, allLines[j].name).typeId == allLines[j].typeId
  {
    FirstMember(allLines, LineName, j);
  }

  // ----- The edit buffer

  /** The edit dialog's state: name, type, lines, and the ids the recipe had when opened. */
  datatype Editor = Editor(name: string, typeId: Option<int>, lines: seq<RecipeLine>, originalIds: seq<int>)

  function LineHasId(l: RecipeLine): bool { l.id.Some? }

  function LineId(l: RecipeLine): int { if l.id.Some? then l.id.value else 0 }

  /** `lines.filter(l => l.id != null).map(l => l.id!)`. */
  function LineIds(lines: seq<RecipeLine>): (r: seq<int>)
    ensures forall v :: v in r <==> exists l :: l in lines && l.id == Some(v)
  {
    var r := Values(Filter(lines, LineHasId), LineId);
    forall v ensures v in r <==> exists l :: l in lines && l.id == Some(v) {
      ValuesElements(Filter(lines, LineHasId), LineId, v);
      forall l ensures l in Filter(lines, LineHasId) <==> l in lines && l.id.Some? {
        FilterElements(lines, LineHasId, l);
      }
    }
    r
  }

  /** openEdit: the group's name, type and lines, and the ids of its lines. */
  function OpenEdit(recipe: GroupedRecipe): (e: Editor)
    ensures e.name == recipe.name && e.typeId == recipe.typeId && e.lines == recipe.lines
    ensures forall v :: v in e.originalIds <==> exists l :: l in recipe.lines && l.id == Some(v)
  {
    Editor(recipe.name, recipe.typeId, recipe.lines, LineIds(recipe.lines))
  }

  /** addLine: a new line for the first ingredient, or nothing when there are no ingredients. */
  function AddLine(e: Editor, ingredients: seq<Ingredient>): (r: Editor)
    ensures ingredients == [] ==> r == e
    ensures ingredients != [] ==>
      r == e.(lines := e.lines + [RecipeLine(None, e.name, e.typeId, ingredients[0].id, Num(Finite(0.0)), Some("g"), Some(ingredients[0].name))])
  {
    if ingredients == [] then e
    else
      var first := ingredients[0];
      e.(lines := e.lines + [RecipeLine(None, e.name, e.typeId, first.id, Num(Finite(0.0)), Some("g"), Some(first.name))])
  }

  /** removeLine. */
  function RemoveLine(e: Editor, idx: int): (r: Editor)
    ensures r.name == e.name && r.typeId == e.typeId && r.originalIds == e.originalIds
    ensures 0 <= idx < |e.lines| ==> r.lines == e.lines[..idx] + e.lines[idx + 1..]
    ensures !(0 <= idx < |e.lines|) ==> r.lines == e.lines
  {
    e.(lines := RemoveAt(e.lines, idx))
  }

  /** The three edits the line editor makes: ingredient, quantity input, unit. */
  datatype LinePatch =
    | IngredientChoice(ingredientId: int, ingredientName: Option<string>)
    | QuantityInput(quantity: Number)
    | UnitChoice(unit: string)

  /** `{ ...line, ...patch }`. */
  function Patched(l: RecipeLine, p: LinePatch): RecipeLine {
    match p
    case IngredientChoice(i, n) => l.(ingredientId := i, ingredientName := n)
    case QuantityInput(q) => l.(quantity := Num(q))
    case UnitChoice(u) => l.(unit := Some(u))
  }

  /** updateLine, on an index of an existing line (the editor only offers those). */
  function UpdateLine(e: Editor, idx: int, p: LinePatch): (r: Editor)
    requires 0 <= idx < |e.lines|
    ensures r.name == e.name && r.typeId == e.typeId && r.originalIds == e.originalIds
    ensures |r.lines| == |e.lines|
    ensures forall i :: 0 <= i < |e.lines| && i != idx ==> r.lines[i] == e.lines[i]
    ensures r.lines[idx] == Patched(e.lines[idx], p)
    ensures r.lines[idx].id == e.lines[idx].id && r.lines[idx].name == e.lines[idx].name
  {
    e.(lines := e.lines[idx := Patched(e.lines[idx], p)])
  }

  function RenamedLines(lines: seq<RecipeLine>, v: string): (r: seq<RecipeLine>)
    ensures |r| == |lines| && forall i :: 0 <= i < |lines| ==> r[i] == lines[i].(name := v)
  {
    if lines == [] then [] else [lines[0].(name := v)] + RenamedLines(lines[1..], v)
  }

  /** The name input: the buffer's name and every line's name. */
  function Rename(e: Editor, v: string): (r: Editor)
    ensures r.name == v && r.typeId == e.typeId && r.originalIds == e.originalIds
    ensures |r.lines| == |e.lines| && forall i :: 0 <= i < |e.lines| ==> r.lines[i] == e.lines[i].(name := v)
  {
    e.(name := v, lines := RenamedLines(e.lines, v))
  }

  function RetypedLines(lines: seq<RecipeLine>, v: Option<int>): (r: seq<RecipeLine>)
    ensures |r| == |lines| && forall i :: 0 <= i < |lines| ==> r[i] == lines[i].(typeId := v)
  {
    if lines == [] then [] else [lines[0].(typeId := v)] + RetypedLines(lines[1..], v)
  }

  /** The type select: the buffer's type and every line's type. */
  function Retype(e: Editor, v: Option<int>): (r: Editor)
    ensures r.name == e.name && r.typeId == v && r.originalIds == e.originalIds
    ensures |r.lines| == |e.lines| && forall i :: 0 <= i < |e.lines| ==> r.lines[i] == e.lines[i].(typeId := v)
  {
    e.(typeId := v, lines := RetypedLines(e.lines, v))
  }

  /** Every line of the buffer carries the buffer's recipe name. */
  predicate NamesAgree(e: Editor) {
    forall i :: 0 <= i < |e.lines| ==> e.lines[i].name == e.name
  }

  /** A recipe opened from the table starts with its lines carrying its name. */
  lemma OpenedNamesAgree(allLines: seq<RecipeLine>, types: seq<RecipeType>, search: string, r: GroupedRecipe)
    requires r in GroupedView(allLines, types, search)
    ensures NamesAgree(OpenEdit(r))
  {
    GroupContents(allLines, types, search, r);
    forall i | 0 <= i < |r.lines| ensures r.lines[i].name == r.name {
      assert r.lines[i] in r.lines;
    }
  }

  /** Adding, patching, renaming and retyping keep the lines carrying the buffer's name. */
  lemma EditsKeepNames(e: Editor, ingredients: seq<Ingredient>, idx: int, p: LinePatch, v: string, t: Option<int>)
    requires NamesAgree(e)
    ensures NamesAgree(AddLine(e, ingredients))
    ensures 0 <= idx < |e.lines| ==> NamesAgree(UpdateLine(e, idx, p))
    ensures NamesAgree(Rename(e, v))
    ensures NamesAgree(Retype(e, t))
  {
  }

  /** So does removing a line. */
  lemma RemoveKeepsNames(e: Editor, idx: int)
    requires NamesAgree(e)
    ensures NamesAgree(RemoveLine(e, idx))
  {
    var r := RemoveLine(e, idx);
    if 0 <= idx < |e.lines| {
      forall i | 0 <= i < |r.lines| ensures r.lines[i].name == e.name {
        if i < idx { assert r.lines[i] == e.lines[i]; } else { assert r.lines[i] == e.lines[i + 1]; }
      }
    }
  }

  // ----- Saving

  /** What `Number(...)` gives for a quantity, after replacing the first `,` of a string by `.`. */
  function QuantityNumber(q: Quantity): Number {
    match q
    case Num(n) => n
    case Str(s) => StringToNumber(ReplaceFirst(s, ',', '.'))
  }

  /** normalizeQty: the number, or 0 when it is not finite. */
  function NormalizeQty(q: Quantity): real {
    var n := QuantityNumber(q);
    if n.Finite? then n.value else 0.0
  }

  /** A finite number passes through; NaN and the infinities become 0. */
  lemma NormalizeNumbers(v: real, n: Number)
    requires !n.Finite?
    ensures NormalizeQty(Num(Finite(v))) == v
    ensures NormalizeQty(Num(n)) == 0.0
  {
  }

  /** Text that does not convert becomes 0. */
  lemma NormalizeUnreadable(s: string)
    requires !StringToNumber(ReplaceFirst(s, ',', '.')).Finite?
    ensures NormalizeQty(Str(s)) == 0.0
  {
  }

  /** A decimal comma is read as a decimal point. */
  lemma DecimalComma(a: string, b: string)
    requires ',' !in a
    ensures QuantityNumber(Str(a + [','] + b)) == StringToNumber(a + ['.'] + b)
  {
    var s := a + [','] + b;
    assert s[..|a|] == a;
    IndexOfIs(s, ',', |a|);
    assert s[|a| + 1..] == b;
  }

  /** So "2,5" becomes 2.5: digits, a comma and digits give the decimal value. */
  lemma DecimalCommaValue(a: string, b: string)
    requires PointLiteral(a, b)
    requires (DigitsValue(a, 10) as real) + 1.0 < OverflowThreshold
    ensures NormalizeQty(Str(a + [','] + b)) == DigitsValue(a, 10) as real + DigitsValue(b, 10) as real / Pow10(|b|)
  {
    PointLiteralShape(a, b);
    assert ',' !in a by {
      forall k | 0 <= k < |a| ensures a[k] != ',' { assert IsDigit(a[k], 10); }
    }
    DecimalComma(a, b);
    PointLiteralValue(a, b);
  }

  /** The row written to the store: no `id` field. */
  datatype Payload = Payload(name: string, typeId: Option<int>, ingredientId: int, quantity: real, unit: string)

  /** sanitize. */
  function Sanitize(l: RecipeLine, name: string, typeId: Option<int>): Payload {
    Payload(Trim(name), typeId, l.ingredientId, NormalizeQty(l.quantity), Trim(l.unit.GetOr("")))
  }

  /** An element of `prepared`: the line's id, if any, beside its payload. */
  datatype PreparedRow = PreparedRow(id: Option<int>, payload: Payload)

  /** `prepared`: each line of the buffer, in order, sanitized. */
  function Prepared(lines: seq<RecipeLine>, name: string, typeId: Option<int>): (r: seq<PreparedRow>)
    ensures |r| == |lines|
    ensures forall i :: 0 <= i < |lines| ==> r[i] == PreparedRow(lines[i].id, Sanitize(lines[i], name, typeId))
  {
    if lines == [] then []
    else [PreparedRow(lines[0].id, Sanitize(lines[0], name, typeId))] + Prepared(lines[1..], name, typeId)
  }

  function HasId(r: PreparedRow): bool { r.id.Some? }

  function LacksId(r: PreparedRow): bool { r.id.None? }

  function RowId(r: PreparedRow): int { if r.id.Some? then r.id.value else 0 }

  /** `currentIds`. */
  function CurrentIds(prepared: seq<PreparedRow>): seq<int> {
    Values(Filter(prepared, HasId), RowId)
  }

  /** `originalIds.filter(id => !currentIds.includes(id))`. */
  function Missing(originalIds: seq<int>, current: seq<int>): (r: seq<int>)
    ensures forall v :: v in r <==> v in originalIds && v !in current
  {
    if originalIds == [] then []
    else
      var rest := Missing(originalIds[1..], current);
      assert forall v :: v in originalIds <==> v == originalIds[0] || v in originalIds[1..] by {
        assert originalIds == [originalIds[0]] + originalIds[1..];
      }
      if originalIds[0] in current then rest else [originalIds[0]] + rest
  }

  function Payloads(rows: seq<PreparedRow>): (r: seq<Payload>)
    ensures |r| == |rows| && forall i :: 0 <= i < |rows| ==> r[i] == rows[i].payload
  {
    if rows == [] then [] else [rows[0].payload] + Payloads(rows[1..])
  }

  /** A store operation, as the page issues it. */
  datatype RecipeOp =
    | DeleteLines(ids: seq<int>)
    | UpdateRow(id: int, payload: Payload)
    | InsertRows(rows: seq<Payload>)

  function UpdateOps(rows: seq<PreparedRow>): (r: seq<RecipeOp>)
    ensures |r| == |rows| && forall i :: 0 <= i < |rows| ==> r[i] == UpdateRow(RowId(rows[i]), rows[i].payload)
  {
    if rows == [] then [] else [UpdateRow(RowId(rows[0]), rows[0].payload)] + UpdateOps(rows[1..])
  }

  /** The ids `saveRecipe` deletes. */
  function ToDelete(e: Editor): seq<int> {
    Missing(e.originalIds, CurrentIds(Prepared(e.lines, e.name, e.typeId)))
  }

  function DeleteStep(ids: seq<int>): seq<RecipeOp> {
    if |ids| > 0 then [DeleteLines(ids)] else []
  }

  function InsertStep(rows: seq<PreparedRow>): seq<RecipeOp> {
    if |rows| > 0 then [InsertRows(Payloads(rows))] else []
  }

  /** `updates`: the prepared rows that have an id. */
  function Updates(e: Editor): seq<PreparedRow> {
    Filter(Prepared(e.lines, e.name, e.typeId), HasId)
  }

  /** `inserts`: the prepared rows without one. */
  function Inserts(e: Editor): seq<PreparedRow> {
    Filter(Prepared(e.lines, e.name, e.typeId), LacksId)
  }

  /** Every operation a save would issue if the store accepted them all. */
  function SavePlan(e: Editor): seq<RecipeOp> {
    DeleteStep(ToDelete(e)) + UpdateOps(Updates(e)) + InsertStep(Inserts(e))
  }

  /** The operations issued and whether all of them succeeded. */
  datatype Run = Run(log: seq<RecipeOp>, ok: bool)

  /** Issuing `rest` after `done`, one at a time, stopping at the first failure. */
  function Attempt(done: seq<RecipeOp>, rest: seq<RecipeOp>, accept: seq<RecipeOp> -> bool): Run
    decreases |rest|
  {
    if rest == [] then Run(done, true)
    else
      var log := done + [rest[0]];
      if accept(log) then Attempt(log, rest[1..], accept) else Run(log, false)
  }

  lemma AttemptStep(done: seq<RecipeOp>, op: RecipeOp, rest: seq<RecipeOp>, accept: seq<RecipeOp> -> bool)
    ensures Attempt(done, [op] + rest, accept)
      == if accept(done + [op]) then Attempt(done + [op], rest, accept) else Run(done + [op], false)
  {
    assert ([op] + rest)[1..] == rest;
  }

  /** Issuing `a` then `b` is issuing `a`, and then `b` only if all of `a` succeeded. */
  lemma {:induction false} AttemptConcat(done: seq<RecipeOp>, a: seq<RecipeOp>, b: seq<RecipeOp>, accept: seq<RecipeOp> -> bool)
    ensures Attempt(done, a + b, accept)
      == var r := Attempt(done, a, accept); if r.ok then Attempt(r.log, b, accept) else r
    decreases |a|
  {
    if a == [] {
      assert a + b == b;
    } else {
      assert (a + b)[0] == a[0] && (a + b)[1..] == a[1..] + b;
      AttemptConcat(done + [a[0]], a[1..], b, accept);
    }
  }

  datatype SaveOutcome = NameRequired | NoLines | Failed | Saved

  /** The loop over `updates`: one update per row, stopping at the first error. */
  method IssueUpdates(log0: seq<RecipeOp>, updates: seq<PreparedRow>, accept: seq<RecipeOp> -> bool) returns (log: seq<RecipeOp>, ok: bool)
    ensures Run(log, ok) == Attempt(log0, UpdateOps(updates), accept)
  {
    log := log0;
    assert updates[0..] == updates;
    for i := 0 to |updates|
      invariant Attempt(log0, UpdateOps(updates), accept) == Attempt(log, UpdateOps(updates[i..]), accept)
    {
      var row := updates[i];
      var op := UpdateRow(RowId(row), row.payload);
      assert UpdateOps(updates[i..]) == [op] + UpdateOps(updates[i + 1..]);
      AttemptStep(log, op, UpdateOps(updates[i + 1..]), accept);
      log := log + [op];
      if !accept(log) {
        return log, false;
      }
    }
    assert UpdateOps(updates[|updates|..]) == [];
    ok := true;
  }

  /** The store calls of saveRecipe: delete, update and insert, stopping at the first error. */
  method Persist(e: Editor, accept: seq<RecipeOp> -> bool) returns (log: seq<RecipeOp>, ok: bool)
    ensures Run(log, ok) == Attempt([], SavePlan(e), accept)
  {
    log := [];
    var toDelete := ToDelete(e);
    var updates := Updates(e);
    var inserts := Inserts(e);
    ghost var deleted := Attempt([], DeleteStep(toDelete), accept);
    AttemptConcat([], DeleteStep(toDelete) + UpdateOps(updates), InsertStep(inserts), accept);
    AttemptConcat([], DeleteStep(toDelete), UpdateOps(updates), accept);
    if |toDelete| > 0 {
      AttemptStep(log, DeleteLines(toDelete), [], accept);
      assert DeleteStep(toDelete) == [DeleteLines(toDelete)] + [];
      log := log + [DeleteLines(toDelete)];
      if !accept(log) {
        return log, false;
      }
    }
    assert deleted == Run(log, true);
    log, ok := IssueUpdates(log, updates, accept);
    if !ok {
      return;
    }
    if |inserts| > 0 {
      AttemptStep(log, InsertRows(Payloads(inserts)), [], accept);
      assert InsertStep(inserts) == [InsertRows(Payloads(inserts))] + [];
      log := log + [InsertRows(Payloads(inserts))];
      ok := accept(log);
    }
  }

  /** saveRecipe: a name and at least one line are required; then the store calls. */
  method SaveRecipe(e: Editor, accept: seq<RecipeOp> -> bool) returns (log: seq<RecipeOp>, outcome: SaveOutcome)
    ensures Trim(e.name) == [] ==> log == [] && outcome == NameRequired
    ensures Trim(e.name) != [] && e.lines == [] ==> log == [] && outcome == NoLines
    ensures Trim(e.name) != [] && e.lines != [] ==>
      (outcome == Saved || outcome == Failed) && Run(log, outcome == Saved) == Attempt([], SavePlan(e), accept)
  {
    if Trim(e.name) == [] {
      return [], NameRequired;
    }
    if |e.lines| == 0 {
      return [], NoLines;
    }
    var ok;
    log, ok := Persist(e, accept);
    outcome := if ok then Saved else Failed;
  }

  // ----- Properties of a save

  /**
   * The log of a save is a prefix of the plan; every operation before the
   * last was accepted; a save that succeeds issued the whole plan; one that
   * fails stopped right after the operation the store refused.
   */
  lemma {:induction false} AttemptStopsAtFirstFailure(done: seq<RecipeOp>, rest: seq<RecipeOp>, accept: seq<RecipeOp> -> bool)
    ensures var r := Attempt(done, rest, accept);
      |done| <= |r.log| <= |done| + |rest| && r.log == done + rest[..|r.log| - |done|]
      && (forall n :: |done| < n < |r.log| ==> accept(r.log[..n]))
      && (r.ok ==> r.log == done + rest && (rest != [] ==> accept(r.log)))
      && (!r.ok ==> |r.log| > |done| && !accept(r.log))
    decreases |rest|
  {
    if rest != [] {
      var log := done + [rest[0]];
      if accept(log) {
        AttemptStopsAtFirstFailure(log, rest[1..], accept);
        var r := Attempt(log, rest[1..], accept);
        assert r.log == done + rest[..|r.log| - |done|] by {
          assert rest[..|r.log| - |done|] == [rest[0]] + rest[1..][..|r.log| - |log|];
        }
        forall n | |done| < n < |r.log| ensures accept(r.log[..n]) {
          if n == |log| { assert r.log[..n] == log; }
        }
        assert r.ok ==> r.log == done + rest by { assert rest == [rest[0]] + rest[1..]; }
        if r.ok && rest[1..] == [] {
          assert r.log == log;
        }
      } else {
        assert rest[..1] == [rest[0]];
      }
    }
  }

  /** The ids of the prepared rows are the ids of the buffer's lines. */
  lemma {:induction false} CurrentIdsAreLineIds(lines: seq<RecipeLine>, name: string, typeId: Option<int>)
    ensures CurrentIds(Prepared(lines, name, typeId)) == LineIds(lines)
    decreases |lines|
  {
    if lines != [] {
      CurrentIdsAreLineIds(lines[1..], name, typeId);
      var p := Prepared(lines, name, typeId);
      assert p[1..] == Prepared(lines[1..], name, typeId);
      assert p[0].id == lines[0].id;
      var fp := Filter(p, HasId);
      var fl := Filter(lines, LineHasId);
      if lines[0].id.Some? {
        assert fp == [p[0]] + Filter(p[1..], HasId);
        assert fl == [lines[0]] + Filter(lines[1..], LineHasId);
        assert fp[1..] == Filter(p[1..], HasId) && fl[1..] == Filter(lines[1..], LineHasId);
      } else {
        assert fp == Filter(p[1..], HasId);
        assert fl == Filter(lines[1..], LineHasId);
      }
    }
  }

  /** The delete set is exactly the original ids that no edited line still has. */
  lemma DeleteSet(e: Editor, v: int)
    ensures v in ToDelete(e) <==> v in e.originalIds && !(exists l :: l in e.lines && l.id == Some(v))
  {
    CurrentIdsAreLineIds(e.lines, e.name, e.typeId);
  }

  /** A prepared row with an id is the prepared form of a line with that id. */
  lemma {:induction false} UpdateIdsAreLineIds(lines: seq<RecipeLine>, name: string, typeId: Option<int>, x: PreparedRow)
    requires x in Filter(Prepared(lines, name, typeId), HasId)
    ensures RowId(x) in CurrentIds(Prepared(lines, name, typeId))
  {
    ValuesElements(Filter(Prepared(lines, name, typeId), HasId), RowId, RowId(x));
  }

  /** No id is both deleted and updated. */
  lemma DeleteDisjointFromUpdates(e: Editor, i: int)
    requires 0 <= i < |Updates(e)|
    ensures UpdateOps(Updates(e))[i].id !in ToDelete(e)
  {
    var updates := Updates(e);
    assert updates[i] in updates;
    UpdateIdsAreLineIds(e.lines, e.name, e.typeId, updates[i]);
  }

  /**
   * Updates and inserts split the prepared lines: together they are all the
   * rows, each as often as in the buffer.
   */
  lemma UpdatesAndInsertsPartition(e: Editor)
    ensures multiset(Updates(e)) + multiset(Inserts(e)) == multiset(Prepared(e.lines, e.name, e.typeId))
    ensures |Updates(e)| + |Inserts(e)| == |e.lines|
  {
    FilterPartition(Prepared(e.lines, e.name, e.typeId), HasId, LacksId);
  }

  /** Phases of at most one delete and at most one insert around the updates. */
  lemma PhaseOrder(d: seq<RecipeOp>, u: seq<RecipeOp>, t: seq<RecipeOp>, i: int)
    requires 0 <= i < |d + u + t| && |d| <= 1 && |t| <= 1
    requires forall k :: 0 <= k < |d| ==> d[k].DeleteLines?
    requires forall k :: 0 <= k < |u| ==> u[k].UpdateRow?
    requires forall k :: 0 <= k < |t| ==> t[k].InsertRows?
    ensures (d + u + t)[i].DeleteLines? ==> i == 0 && (d + u + t)[i] == d[0]
    ensures (d + u + t)[i].InsertRows? ==> i == |d + u + t| - 1 && (d + u + t)[i] == t[0]
    ensures (d + u + t)[i].UpdateRow? ==> |d| <= i < |d| + |u| && (d + u + t)[i] == u[i - |d|]
  {
  }

  /** The plan issues at most one delete, first, with the non-empty delete set. */
  lemma DeleteComesFirst(e: Editor, i: int)
    requires 0 <= i < |SavePlan(e)| && SavePlan(e)[i].DeleteLines?
    ensures i == 0 && SavePlan(e)[i].ids == ToDelete(e) && |ToDelete(e)| > 0
  {
    PhaseOrder(DeleteStep(ToDelete(e)), UpdateOps(Updates(e)), InsertStep(Inserts(e)), i);
  }

  /** The plan issues at most one insert, last, with the rows that have no id. */
  lemma InsertComesLast(e: Editor, i: int)
    requires 0 <= i < |SavePlan(e)| && SavePlan(e)[i].InsertRows?
    ensures i == |SavePlan(e)| - 1 && SavePlan(e)[i].rows == Payloads(Inserts(e)) && |Inserts(e)| > 0
  {
    PhaseOrder(DeleteStep(ToDelete(e)), UpdateOps(Updates(e)), InsertStep(Inserts(e)), i);
  }

  /** A payload written for the buffer: its trimmed name, its type and a trimmed unit. */
  predicate CleanPayload(p: Payload, name: string, typeId: Option<int>) {
    p.name == Trim(name) && p.typeId == typeId
    && (p.unit == [] || (!IsWhiteSpace(p.unit[0]) && !IsWhiteSpace(p.unit[|p.unit| - 1])))
  }

  predicate AllClean(rows: seq<PreparedRow>, name: string, typeId: Option<int>) {
    forall i :: 0 <= i < |rows| ==> CleanPayload(rows[i].payload, name, typeId)
  }

  lemma PreparedClean(lines: seq<RecipeLine>, name: string, typeId: Option<int>)
    ensures AllClean(Prepared(lines, name, typeId), name, typeId)
  {
  }

  lemma {:induction false} FilterClean(rows: seq<PreparedRow>, keep: PreparedRow -> bool, name: string, typeId: Option<int>)
    requires AllClean(rows, name, typeId)
    ensures AllClean(Filter(rows, keep), name, typeId)
  {
    var f := Filter(rows, keep);
    forall i | 0 <= i < |f| ensures CleanPayload(f[i].payload, name, typeId) {
      assert f[i] in f;
      FilterElements(rows, keep, f[i]);
      var k :| 0 <= k < |rows| && rows[k] == f[i];
    }
  }

  lemma UpdatesClean(e: Editor)
    ensures AllClean(Updates(e), e.name, e.typeId)
  {
    PreparedClean(e.lines, e.name, e.typeId);
    FilterClean(Prepared(e.lines, e.name, e.typeId), HasId, e.name, e.typeId);
  }

  /** An update of the plan writes the payload of a row with an id. */
  lemma UpdateOfPlan(e: Editor, i: int)
    requires 0 <= i < |SavePlan(e)| && SavePlan(e)[i].UpdateRow?
    ensures var k := i - |DeleteStep(ToDelete(e))|;
      0 <= k < |Updates(e)| && SavePlan(e)[i].payload == Updates(e)[k].payload
  {
    PhaseOrder(DeleteStep(ToDelete(e)), UpdateOps(Updates(e)), InsertStep(Inserts(e)), i);
  }

  /** Every row the save updates carries a clean payload. */
  lemma UpdatesSanitized(e: Editor, i: int)
    requires 0 <= i < |SavePlan(e)| && SavePlan(e)[i].UpdateRow?
    ensures CleanPayload(SavePlan(e)[i].payload, e.name, e.typeId)
  {
    UpdateOfPlan(e, i);
    UpdatesClean(e);
  }

  /** Every row the save inserts is clean. */
  lemma InsertsSanitized(e: Editor, i: int)
    requires 0 <= i < |SavePlan(e)| && SavePlan(e)[i].InsertRows?
    ensures forall j :: 0 <= j < |SavePlan(e)[i].rows| ==> CleanPayload(SavePlan(e)[i].rows[j], e.name, e.typeId)
  {
    var prepared := Prepared(e.lines, e.name, e.typeId);
    var inserts := Inserts(e);
    PreparedClean(e.lines, e.name, e.typeId);
    FilterClean(prepared, LacksId, e.name, e.typeId);
    InsertComesLast(e, i);
  }

  // ----- Deleting a recipe

  /** `recipe.lines.map(l => l.id!).filter(Boolean)`: the ids present and non-zero. */
  function RecipeIds(lines: seq<RecipeLine>): (r: seq<int>)
    ensures forall v :: v in r <==> v != 0 && exists l :: l in lines && l.id == Some(v)
  {
    if lines == [] then []
    else
      var rest := RecipeIds(lines[1..]);
      assert forall l :: l in lines <==> l == lines[0] || l in lines[1..] by { assert lines == [lines[0]] + lines[1..]; }
      if lines[0].id.Some? && lines[0].id.value != 0 then [lines[0].id.value] + rest else rest
  }

  datatype DeleteOutcome = Cancelled | DeleteFailed | Deleted

  datatype DeleteRun = DeleteRun(log: seq<RecipeOp>, outcome: DeleteOutcome)

  /** deleteRecipe, with the answer to the confirmation dialog as `confirmed`. */
  function DeleteRecipe(recipe: GroupedRecipe, confirmed: bool, accept: seq<RecipeOp> -> bool): (r: DeleteRun)
    ensures !confirmed ==> r == DeleteRun([], Cancelled)
    ensures confirmed && RecipeIds(recipe.lines) == [] ==> r == DeleteRun([], Deleted)
    ensures confirmed && RecipeIds(recipe.lines) != [] ==>
      r.log == [DeleteLines(RecipeIds(recipe.lines))] && (r.outcome == Deleted <==> accept(r.log))
      && r.outcome != Cancelled
  {
    if !confirmed then DeleteRun([], Cancelled)
    else
      var ids := RecipeIds(recipe.lines);
      if |ids| == 0 then DeleteRun([], Deleted)
      else if accept([DeleteLines(ids)]) then DeleteRun([DeleteLines(ids)], Deleted)
      else DeleteRun([DeleteLines(ids)], DeleteFailed)
  }
}
