/**
 * The shopping-list download: the cart's recipe-ingredient rows grouped by
 * (ingredient name, measurement unit) with summed amounts, ordered by name,
 * and the plain-text report `out_list_ingredients` writes.
 */
module ShoppingList {
  import opened Types
  import opened Strings
  import opened Models

  /** An entry of the aggregation: an ingredient name and unit and an amount. */
  datatype Line = Line(name: string, unit: string, amount: int)

  predicate SameKey(a: Line, name: string, unit: string) {
    a.name == name && a.unit == unit
  }

  /** Name first, then unit, each in code-point order. */
  predicate KeyLess(a: Line, b: Line) {
    Less(a.name, b.name) || (a.name == b.name && Less(a.unit, b.unit))
  }

  predicate StrictlySorted(gs: seq<Line>) {
    forall i, j :: 0 <= i < j < |gs| ==> KeyLess(gs[i], gs[j])
  }

  lemma KeyLessTransitive(a: Line, b: Line, c: Line)
    requires KeyLess(a, b) && KeyLess(b, c)
    ensures KeyLess(a, c)
  {
    if Less(a.name, b.name) && Less(b.name, c.name) {
      LessTransitive(a.name, b.name, c.name);
    } else if a.name == b.name == c.name {
      LessTransitive(a.unit, b.unit, c.unit);
    }
  }

  lemma KeyLessIrreflexive(a: Line, b: Line)
    requires a.name == b.name && a.unit == b.unit
    ensures !KeyLess(a, b)
  {
    LessIrreflexive(a.name);
    LessIrreflexive(a.unit);
  }

  lemma KeyLessTotal(a: Line, b: Line)
    ensures SameKey(a, b.name, b.unit) || KeyLess(a, b) || KeyLess(b, a)
  {
    LessTotal(a.name, b.name);
    LessTotal(a.unit, b.unit);
  }

  /** The sum of the amounts of the lines with the given name and unit. */
  function AmountOf(ls: seq<Line>, name: string, unit: string): int
  {
    if |ls| == 0 then 0
    else (if SameKey(ls[0], name, unit) then ls[0].amount else 0) + AmountOf(ls[1..], name, unit)
  }

  /** The sum of all amounts. */
  function Total(ls: seq<Line>): int
  {
    if |ls| == 0 then 0 else ls[0].amount + Total(ls[1..])
  }

  predicate HasKey(ls: seq<Line>, name: string, unit: string) {
    exists i :: 0 <= i < |ls| && SameKey(ls[i], name, unit)
  }

  /** Adds one line into a strictly sorted list of groups: to the group with
      the same key, or as a new group at its place in the order. */
  function Merge(l: Line, gs: seq<Line>): (r: seq<Line>)
    requires StrictlySorted(gs)
    ensures StrictlySorted(r)
    ensures forall i :: 0 <= i < |r| ==> SameKey(r[i], l.name, l.unit) || r[i] in gs
    ensures |r| > 0
  {
    if |gs| == 0 then [l]
    else if SameKey(gs[0], l.name, l.unit) then
      assert forall i :: 1 <= i < |gs| ==> gs[i] in gs;
      [gs[0].(amount := gs[0].amount + l.amount)] + gs[1..]
    else if KeyLess(l, gs[0]) then
      assert forall j :: 0 < j < |gs| ==> KeyLess(gs[0], gs[j]);
      forall j | 0 < j < |gs| ensures KeyLess(l, gs[j]) {
        KeyLessTransitive(l, gs[0], gs[j]);
      }
      [l] + gs
    else
      KeyLessTotal(l, gs[0]);
      var tail := Merge(l, gs[1..]);
      forall j | 0 <= j < |tail| ensures KeyLess(gs[0], tail[j]) {
        if tail[j] !in gs[1..] {
          assert SameKey(tail[j], l.name, l.unit);
        }
      }
      [gs[0]] + tail
  }

  /** Groups the lines by (name, unit), summing the amounts, in key order. */
  function Aggregate(ls: seq<Line>): (gs: seq<Line>)
    ensures StrictlySorted(gs)
  {
    if |ls| == 0 then [] else Merge(ls[0], Aggregate(ls[1..]))
  }

  // ---------------------------------------------------------------------------
  // Properties of the aggregation
  // ---------------------------------------------------------------------------

  lemma {:induction false} MergeAmount(l: Line, gs: seq<Line>, name: string, unit: string)
    requires StrictlySorted(gs)
    ensures AmountOf(Merge(l, gs), name, unit)
      == AmountOf(gs, name, unit) + (if SameKey(l, name, unit) then l.amount else 0)
    decreases |gs|
  {
    if |gs| == 0 {
      assert Merge(l, gs)[1..] == [];
    } else if SameKey(gs[0], l.name, l.unit) {
      assert Merge(l, gs)[1..] == gs[1..];
    } else if KeyLess(l, gs[0]) {
      assert Merge(l, gs)[1..] == gs;
    } else {
      MergeAmount(l, gs[1..], name, unit);
      assert Merge(l, gs)[1..] == Merge(l, gs[1..]);
    }
  }

  lemma {:induction false} MergeTotal(l: Line, gs: seq<Line>)
    requires StrictlySorted(gs)
    ensures Total(Merge(l, gs)) == Total(gs) + l.amount
    decreases |gs|
  {
    if |gs| == 0 {
      assert Merge(l, gs)[1..] == [];
    } else if SameKey(gs[0], l.name, l.unit) {
      assert Merge(l, gs)[1..] == gs[1..];
    } else if KeyLess(l, gs[0]) {
      assert Merge(l, gs)[1..] == gs;
    } else {
      MergeTotal(l, gs[1..]);
      assert Merge(l, gs)[1..] == Merge(l, gs[1..]);
    }
  }

  lemma MergeKeysSound(l: Line, gs: seq<Line>, name: string, unit: string)
    requires StrictlySorted(gs)
    requires HasKey(Merge(l, gs), name, unit)
    ensures HasKey(gs, name, unit) || SameKey(l, name, unit)
  {
    var r := Merge(l, gs);
    var i :| 0 <= i < |r| && SameKey(r[i], name, unit);
    if r[i] in gs {
      var k :| 0 <= k < |gs| && gs[k] == r[i];
      assert SameKey(gs[k], name, unit);
    }
  }

  lemma {:induction false} MergeKeysComplete(l: Line, gs: seq<Line>, name: string, unit: string)
    requires StrictlySorted(gs)
    requires HasKey(gs, name, unit) || SameKey(l, name, unit)
    ensures HasKey(Merge(l, gs), name, unit)
    decreases |gs|
  {
    var r := Merge(l, gs);
    if |gs| == 0 {
      assert r == [l];
      assert SameKey(r[0], name, unit);
    } else if SameKey(gs[0], l.name, l.unit) {
      assert r == [gs[0].(amount := gs[0].amount + l.amount)] + gs[1..];
      if SameKey(gs[0], name, unit) {
        assert SameKey(r[0], name, unit);
      } else {
        var i :| 0 <= i < |gs| && SameKey(gs[i], name, unit);
        assert r[i] == gs[i];
        assert SameKey(r[i], name, unit);
      }
    } else if KeyLess(l, gs[0]) {
      assert r == [l] + gs;
      if SameKey(l, name, unit) {
        assert SameKey(r[0], name, unit);
      } else {
        var i :| 0 <= i < |gs| && SameKey(gs[i], name, unit);
        assert r[i + 1] == gs[i];
        assert SameKey(r[i + 1], name, unit);
      }
    } else {
      var tail := Merge(l, gs[1..]);
      assert r == [gs[0]] + tail;
      if SameKey(gs[0], name, unit) {
        assert SameKey(r[0], name, unit);
      } else {
        assert HasKey(gs[1..], name, unit) || SameKey(l, name, unit) by {
          if !SameKey(l, name, unit) {
            var i :| 0 <= i < |gs| && SameKey(gs[i], name, unit);
            assert SameKey(gs[1..][i - 1], name, unit);
          }
        }
        MergeKeysComplete(l, gs[1..], name, unit);
        var k :| 0 <= k < |tail| && SameKey(tail[k], name, unit);
        assert r[k + 1] == tail[k];
        assert SameKey(r[k + 1], name, unit);
      }
    }
  }

  lemma MergeKeys(l: Line, gs: seq<Line>, name: string, unit: string)
    requires StrictlySorted(gs)
    ensures HasKey(Merge(l, gs), name, unit) <==> HasKey(gs, name, unit) || SameKey(l, name, unit)
  {
    if HasKey(Merge(l, gs), name, unit) {
      MergeKeysSound(l, gs, name, unit);
    }
    if HasKey(gs, name, unit) || SameKey(l, name, unit) {
      MergeKeysComplete(l, gs, name, unit);
    }
  }

  /** Each key's summed amount is preserved by the grouping. */
  lemma {:induction false} AggregateAmounts(ls: seq<Line>, name: string, unit: string)
    ensures AmountOf(Aggregate(ls), name, unit) == AmountOf(ls, name, unit)
    decreases |ls|
  {
    if |ls| > 0 {
      AggregateAmounts(ls[1..], name, unit);
      MergeAmount(ls[0], Aggregate(ls[1..]), name, unit);
    }
  }

  /** The grand total of the groups is the total over all lines. */
  lemma {:induction false} AggregateTotal(ls: seq<Line>)
    ensures Total(Aggregate(ls)) == Total(ls)
    decreases |ls|
  {
    if |ls| > 0 {
      AggregateTotal(ls[1..]);
      MergeTotal(ls[0], Aggregate(ls[1..]));
    }
  }

  /** There is a group for a (name, unit) exactly when some line has it. */
  lemma {:induction false} AggregateKeys(ls: seq<Line>, name: string, unit: string)
    ensures HasKey(Aggregate(ls), name, unit) <==> HasKey(ls, name, unit)
    decreases |ls|
  {
    if |ls| > 0 {
      AggregateKeys(ls[1..], name, unit);
      MergeKeys(ls[0], Aggregate(ls[1..]), name, unit);
      if HasKey(ls[1..], name, unit) {
        var i :| 0 <= i < |ls[1..]| && SameKey(ls[1..][i], name, unit);
        assert SameKey(ls[i + 1], name, unit);
      }
      if HasKey(ls, name, unit) && !SameKey(ls[0], name, unit) {
        var i :| 0 <= i < |ls| && SameKey(ls[i], name, unit);
        assert SameKey(ls[1..][i - 1], name, unit);
      }
    }
  }

  /** In a strictly sorted list a key's amount is that of its one group. */
  lemma {:induction false} SortedGroupAmount(gs: seq<Line>, i: nat)
    requires StrictlySorted(gs) && i < |gs|
    ensures AmountOf(gs, gs[i].name, gs[i].unit) == gs[i].amount
    decreases |gs|
  {
    var g := gs[i];
    if i == 0 {
      OtherKeysAbsent(gs[1..], g);
    } else {
      assert KeyLess(gs[0], gs[i]);
      if SameKey(gs[0], g.name, g.unit) {
        KeyLessIrreflexive(gs[0], g);
      }
      assert gs[1..][i - 1] == g;
      SortedGroupAmount(gs[1..], i - 1);
    }
  }

  lemma {:induction false} OtherKeysAbsent(gs: seq<Line>, g: Line)
    requires forall j :: 0 <= j < |gs| ==> KeyLess(g, gs[j])
    ensures AmountOf(gs, g.name, g.unit) == 0
    decreases |gs|
  {
    if |gs| > 0 {
      if SameKey(gs[0], g.name, g.unit) {
        KeyLessIrreflexive(g, gs[0]);
      }
      OtherKeysAbsent(gs[1..], g);
    }
  }

  /** Every group carries the sum of the amounts of the lines with its name
      and unit, and no two groups share a (name, unit). */
  lemma GroupsAreSums(ls: seq<Line>)
    ensures forall i :: 0 <= i < |Aggregate(ls)| ==>
      Aggregate(ls)[i].amount == AmountOf(ls, Aggregate(ls)[i].name, Aggregate(ls)[i].unit)
    ensures forall i, j :: 0 <= i < j < |Aggregate(ls)| ==>
      !SameKey(Aggregate(ls)[i], Aggregate(ls)[j].name, Aggregate(ls)[j].unit)
  {
    var gs := Aggregate(ls);
    forall i | 0 <= i < |gs| ensures gs[i].amount == AmountOf(ls, gs[i].name, gs[i].unit) {
      SortedGroupAmount(gs, i);
      AggregateAmounts(ls, gs[i].name, gs[i].unit);
    }
    forall i, j | 0 <= i < j < |gs| ensures !SameKey(gs[i], gs[j].name, gs[j].unit) {
      if SameKey(gs[i], gs[j].name, gs[j].unit) {
        KeyLessIrreflexive(gs[i], gs[j]);
      }
    }
  }

  /** The groups come in non-decreasing name order. */
  lemma GroupsOrderedByName(ls: seq<Line>)
    ensures forall i, j :: 0 <= i < j < |Aggregate(ls)| ==> !Less(Aggregate(ls)[j].name, Aggregate(ls)[i].name)
  {
    var gs := Aggregate(ls);
    forall i, j | 0 <= i < j < |gs| ensures !Less(gs[j].name, gs[i].name) {
      assert KeyLess(gs[i], gs[j]);
      if Less(gs[i].name, gs[j].name) {
        LessAsymmetric(gs[i].name, gs[j].name);
      } else {
        LessIrreflexive(gs[i].name);
      }
    }
  }

  // ---------------------------------------------------------------------------
  // The rows that feed the aggregation
  // ---------------------------------------------------------------------------

  /** The recipe-ingredient rows of the recipes in `user`'s shopping cart, as
      (ingredient name, unit, amount). The ingredient id is dropped, so two
      ingredients with the same name and unit fall into the same group. */
  function CartLines(user: UserId, rows: seq<RecipeIngredient>, cart: set<Entry>,
                     ingredients: map<IngredientId, Ingredient>): (ls: seq<Line>)
    ensures |ls| <= |rows|
  {
    if |rows| == 0 then []
    else
      var row := rows[0];
      var rest := CartLines(user, rows[1..], cart, ingredients);
      if Entry(user, row.recipe) in cart && row.ingredient in ingredients then
        [Line(ingredients[row.ingredient].name, ingredients[row.ingredient].unit, row.amount)] + rest
      else rest
  }

  /** The cart lines' amount for a (name, unit) is the sum over exactly the
      rows whose recipe is in the cart and whose ingredient has that name and unit. */
  lemma {:induction false} CartLinesAmount(user: UserId, rows: seq<RecipeIngredient>, cart: set<Entry>,
                                           ingredients: map<IngredientId, Ingredient>, name: string, unit: string)
    ensures AmountOf(CartLines(user, rows, cart, ingredients), name, unit) == CartRowsAmount(user, rows, cart, ingredients, name, unit)
    decreases |rows|
  {
    if |rows| > 0 {
      CartLinesAmount(user, rows[1..], cart, ingredients, name, unit);
    }
  }

  /** Reference sum over the rows, the way the SQL query joins and groups them. */
  function CartRowsAmount(user: UserId, rows: seq<RecipeIngredient>, cart: set<Entry>,
                          ingredients: map<IngredientId, Ingredient>, name: string, unit: string): int
  {
    if |rows| == 0 then 0
    else
      var row := rows[0];
      (if Entry(user, row.recipe) in cart && row.ingredient in ingredients
          && ingredients[row.ingredient] == Ingredient(name, unit)
       then row.amount else 0)
      + CartRowsAmount(user, rows[1..], cart, ingredients, name, unit)
  }

  // ---------------------------------------------------------------------------
  // The report
  // ---------------------------------------------------------------------------

  /** A calendar date, as `datetime.today()` supplies it. */
  datatype Date = Date(year: nat, month: nat, day: nat)

  function IntToString(n: int): string {
    if n < 0 then "-" + NatToString(-n) else NatToString(n)
  }

  const ReportTitle: string := "Список покупок для пользователя: "
  const DateTitle: string := "Дата: "
  const SiteName: string := "Foodgram"

  function HeaderLine(username: string): string {
    ReportTitle + username
  }

  /** `{today:%Y-%m-%d}`: zero-padded year, month and day. */
  function DateLine(d: Date): string {
    DateTitle + Padded(d.year, 4) + "-" + Padded(d.month, 2) + "-" + Padded(d.day, 2)
  }

  function FooterLine(d: Date): string {
    SiteName + " (" + Padded(d.year, 4) + ")"
  }

  /** `- {name} ({unit}) - {amount}` */
  function ItemLine(g: Line): string {
    "- " + g.name + " (" + g.unit + ") - " + IntToString(g.amount)
  }

  function ItemLines(gs: seq<Line>): (r: seq<string>)
    ensures |r| == |gs|
    ensures forall i :: 0 <= i < |gs| ==> r[i] == ItemLine(gs[i])
  {
    if |gs| == 0 then [] else [ItemLine(gs[0])] + ItemLines(gs[1..])
  }

  /** The lines of the report's body: one per group, or a single empty line
      when there are no groups. */
  function BodyLines(gs: seq<Line>): seq<string> {
    if |gs| > 0 then ItemLines(gs) else [""]
  }

  /** The four writes of the report: the header with a blank line, the date
      with a blank line, the item lines joined by newlines, and a blank line
      with the footer. */
  function FirstWrite(username: string): string {
    HeaderLine(username) + "\n\n"
  }

  function SecondWrite(d: Date): string {
    DateLine(d) + "\n\n"
  }

  function ThirdWrite(gs: seq<Line>): string {
    Join(ItemLines(gs), "\n")
  }

  function FourthWrite(d: Date): string {
    "\n\n" + FooterLine(d)
  }

  /** The text of the report: its four writes, in order. */
  function Report(username: string, d: Date, gs: seq<Line>): string {
    FirstWrite(username) + SecondWrite(d) + ThirdWrite(gs) + FourthWrite(d)
  }

  /** The downloaded attachment. */
  datatype Download = Download(filename: string, disposition: string, body: string)

  /** `out_list_ingredients`: writes the report piece by piece into a buffer. */
  method OutListIngredients(username: string, d: Date, gs: seq<Line>) returns (r: Download)
    ensures r.filename == username + "_shopping_list.txt"
    ensures r.disposition == "attachment; filename=" + r.filename
    ensures r.body == Report(username, d, gs)
  {
    var filename := username + "_shopping_list.txt";
    var buffer := "";
    buffer := buffer + FirstWrite(username);
    assert buffer == FirstWrite(username);
    buffer := buffer + SecondWrite(d);
    buffer := buffer + ThirdWrite(gs);
    buffer := buffer + FourthWrite(d);
    r := Download(filename, "attachment; filename=" + filename, buffer);
  }

  predicate NoNewline(s: string) {
    '\n' !in s
  }

  lemma DigitsHaveNoNewline(s: string)
    requires AllDigits(s)
    ensures NoNewline(s)
  {
    forall i | 0 <= i < |s| ensures s[i] != '\n' {
      assert IsDigit(s[i]);
    }
  }

  lemma NoNewlineConcat(a: string, b: string)
    requires NoNewline(a) && NoNewline(b)
    ensures NoNewline(a + b)
  {
    forall i | 0 <= i < |a + b| ensures (a + b)[i] != '\n' {
      if i < |a| {
        assert (a + b)[i] == a[i];
      } else {
        assert (a + b)[i] == b[i - |a|];
      }
    }
  }

  lemma HeaderSingleLine(username: string)
    requires NoNewline(username)
    ensures NoNewline(HeaderLine(username))
  {
    assert NoNewline(ReportTitle);
    NoNewlineConcat(ReportTitle, username);
  }

  lemma DateSingleLine(d: Date)
    ensures NoNewline(DateLine(d))
  {
    var y, m, dd := Padded(d.year, 4), Padded(d.month, 2), Padded(d.day, 2);
    DigitsHaveNoNewline(y);
    DigitsHaveNoNewline(m);
    DigitsHaveNoNewline(dd);
    assert NoNewline(DateTitle);
    NoNewlineConcat(DateTitle, y);
    NoNewlineConcat(DateTitle + y, "-");
    NoNewlineConcat(DateTitle + y + "-", m);
    NoNewlineConcat(DateTitle + y + "-" + m, "-");
    NoNewlineConcat(DateTitle + y + "-" + m + "-", dd);
  }

  lemma FooterSingleLine(d: Date)
    ensures NoNewline(FooterLine(d))
  {
    var y := Padded(d.year, 4);
    DigitsHaveNoNewline(y);
    assert NoNewline(SiteName + " (");
    NoNewlineConcat(SiteName + " (", y);
    NoNewlineConcat(SiteName + " (" + y, ")");
  }

  lemma ItemSingleLine(g: Line)
    requires NoNewline(g.name) && NoNewline(g.unit)
    ensures NoNewline(ItemLine(g))
  {
    var n := if g.amount < 0 then NatToString(-g.amount) else NatToString(g.amount);
    DigitsHaveNoNewline(n);
    NoNewlineConcat("-", n);
    assert NoNewline(IntToString(g.amount));
    NoNewlineConcat("- ", g.name);
    NoNewlineConcat("- " + g.name, " (");
    NoNewlineConcat("- " + g.name + " (", g.unit);
    NoNewlineConcat("- " + g.name + " (" + g.unit, ") - ");
    NoNewlineConcat("- " + g.name + " (" + g.unit + ") - ", IntToString(g.amount));
  }

  lemma SplitSingleLine(s: string)
    requires NoNewline(s)
    ensures Split(s, "\n") == [s]
  {
    CharContains(s, '\n');
    SplitWithoutSeparator(s, "\n");
  }

  /** A blank line between two texts is an empty piece between their lines. */
  lemma SplitBlankLine(a: string, b: string)
    ensures Split(a + "\n\n" + b, "\n") == Split(a, "\n") + [""] + Split(b, "\n")
  {
    var nl := "\n";
    assert a + "\n\n" + b == a + nl + ("" + nl + b);
    SplitConcat(a, nl, "" + nl + b);
    SplitConcat("", nl, b);
    SplitSingleLine("");
  }

  lemma SplitWrites(h: string, dl: string, body: string, f: string)
    requires NoNewline(h) && NoNewline(dl) && NoNewline(f)
    ensures Split((h + "\n\n") + (dl + "\n\n") + body + ("\n\n" + f), "\n")
      == [h, "", dl, ""] + Split(body, "\n") + ["", f]
  {
    var nn := "\n\n";
    var y := h + nn + dl;
    var x := y + nn + body;
    var b := Split(body, "\n");
    assert (h + nn) + (dl + nn) + body + (nn + f) == x + nn + f;
    var top := Split(y, "\n");
    assert top == [h, "", dl] by {
      SplitBlankLine(h, dl);
      SplitSingleLine(h);
      SplitSingleLine(dl);
    }
    var mid := Split(x, "\n");
    assert mid == top + [""] + b by {
      SplitBlankLine(y, body);
    }
    assert Split(x + nn + f, "\n") == mid + ["", f] by {
      SplitBlankLine(x, f);
      SplitSingleLine(f);
    }
    assert top + [""] == [h, "", dl, ""];
  }

  lemma ItemLinesSplit(gs: seq<Line>)
    requires forall i :: 0 <= i < |gs| ==> NoNewline(gs[i].name) && NoNewline(gs[i].unit)
    ensures Split(ThirdWrite(gs), "\n") == BodyLines(gs)
  {
    var nl := "\n";
    if |gs| > 0 {
      forall i | 0 <= i < |gs| ensures !Contains(ItemLines(gs)[i], nl) {
        ItemSingleLine(gs[i]);
        CharContains(ItemLines(gs)[i], '\n');
      }
      CharUnbordered(nl);
      SplitJoin(ItemLines(gs), nl);
    } else {
      SplitSingleLine("");
    }
  }

  /** The report's lines: header, blank, date, blank, the body's lines,
      blank, footer. */
  lemma ReportSplit(username: string, d: Date, gs: seq<Line>, items: seq<string>)
    requires NoNewline(username)
    requires Split(ThirdWrite(gs), "\n") == items
    ensures Split(Report(username, d, gs), "\n")
      == [HeaderLine(username), "", DateLine(d), ""] + items + ["", FooterLine(d)]
  {
    HeaderSingleLine(username);
    DateSingleLine(d);
    FooterSingleLine(d);
    SplitWrites(HeaderLine(username), DateLine(d), ThirdWrite(gs), FooterLine(d));
  }

  /** Splitting the report at newlines gives the header, a blank line, the
      date, a blank line, one line per group in order, a blank line and the
      footer; with no groups the body is one empty line. */
  lemma ReportLines(username: string, d: Date, gs: seq<Line>)
    requires NoNewline(username)
    requires forall i :: 0 <= i < |gs| ==> NoNewline(gs[i].name) && NoNewline(gs[i].unit)
    ensures Split(Report(username, d, gs), "\n")
      == [HeaderLine(username), "", DateLine(d), ""]
         + BodyLines(gs) + ["", FooterLine(d)]
  {
    ItemLinesSplit(gs);
    ReportSplit(username, d, gs, BodyLines(gs));
  }
}
