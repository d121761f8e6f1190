/** The text the todo application derives from a task when it builds the
    task's row (`createTodoItem`), reads back from a row when a button in it is
    clicked (`handleTodoAction`), and shows as the remaining-items count
    (`updateTodoCount`). */
module View {
  import opened Options
  import opened Decimal
  import opened Tasks

  // ---------------------------------------------------------------------
  // String search (`String.prototype.replace` with a string pattern)

  /** `pat` occurs in `s` starting at position `i`. */
  predicate OccursAt(s: string, pat: string, i: nat) {
    i + |pat| <= |s| && s[i..i + |pat|] == pat
  }

  /** The first position at or after `k` where `pat` occurs, if any. */
  function IndexOfFrom(s: string, pat: string, k: nat): (r: Option<nat>)
    ensures r.Some? ==>
      k <= r.value && OccursAt(s, pat, r.value)
      && forall j :: k <= j < r.value ==> !OccursAt(s, pat, j)
    ensures r.None? ==> forall j :: k <= j ==> !OccursAt(s, pat, j)
    decreases |s| - k
  {
    if k + |pat| > |s| then None
    else if OccursAt(s, pat, k) then Some(k)
    else IndexOfFrom(s, pat, k + 1)
  }

  /** `s.replace(pat, rep)`: only the first occurrence is replaced, and `s` is
      returned as it is when `pat` does not occur. */
  function ReplaceFirst(s: string, pat: string, rep: string): (r: string)
    ensures (forall j :: !OccursAt(s, pat, j)) ==> r == s
    ensures OccursAt(s, pat, 0) ==> r == rep + s[|pat|..]
    ensures forall i: nat :: OccursAt(s, pat, i) && (forall j :: 0 <= j < i ==> !OccursAt(s, pat, j)) ==>
      r == s[..i] + rep + s[i + |pat|..]
  {
    match IndexOfFrom(s, pat, 0)
    case None => s
    case Some(i) => s[..i] + rep + s[i + |pat|..]
  }

  // ---------------------------------------------------------------------
  // Row element id: written as `todo-<id>`, read back with `parseInt`

  const RowIdPrefix := "todo-"

  /** The element id of a task's row. */
  function ElementId(id: int): (e: string)
    ensures RowIdPrefix <= e
    ensures ParseElementId(e) == Some(id)
  {
    StripPrefix(RowIdPrefix, FormatInt(id));
    ParseFormatInt(id);
    RowIdPrefix + FormatInt(id)
  }

  /** The task id `handleTodoAction` reads from a row's element id; `None`
      stands for `NaN`, which no task id equals. */
  function ParseElementId(e: string): (r: Option<int>)
    ensures RowIdPrefix <= e ==> r == ParseInt(e[|RowIdPrefix|..])
    ensures (forall j :: !OccursAt(e, RowIdPrefix, j)) ==> r == ParseInt(e)
  {
    ReplaceLeading(RowIdPrefix, e);
    ParseInt(ReplaceFirst(e, RowIdPrefix, ""))
  }

  /** Reading a row's element id gives back the id it was written from, for
      every integer id, negative ones included. This restates the contract of
      `ElementId` as a lemma for callers that hold only an id. */
  lemma ElementIdRoundTrip(id: int)
    ensures ParseElementId(ElementId(id)) == Some(id)
  {
  }

  /** Replacing the pattern a string starts with by nothing leaves the rest. */
  lemma ReplaceLeading(pat: string, e: string)
    ensures pat <= e ==> ReplaceFirst(e, pat, "") == e[|pat|..]
  {
    if pat <= e {
      var rest := e[|pat|..];
      assert e == pat + rest;
      StripPrefix(pat, rest);
    }
  }

  /** Replacing a pattern that starts the string by nothing strips it. */
  lemma StripPrefix(pat: string, rest: string)
    ensures ReplaceFirst(pat + rest, pat, "") == rest
  {
    var s := pat + rest;
    assert s[0..|pat|] == pat;
    assert OccursAt(s, pat, 0);
    assert s[|pat|..] == rest;
  }

  /** Distinct task ids give distinct row element ids. */
  lemma ElementIdInjective(a: int, b: int)
    ensures a != b ==> ElementId(a) != ElementId(b)
  {
    ElementIdRoundTrip(a);
    ElementIdRoundTrip(b);
  }

  // ---------------------------------------------------------------------
  // Row class and toggle label

  /** The class attribute of a task's row: `todo-item` followed by a space and
      `completed` when the task is completed (a trailing space otherwise). */
  function RowClass(completed: bool): string {
    "todo-item " + (if completed then "completed" else "")
  }

  /** The text of the toggle button, without the white space around it. */
  function ToggleLabel(completed: bool): (text: string)
    ensures text == "Undo" <==> completed
    ensures text == "Complete" <==> !completed
  {
    if completed then "Undo" else "Complete"
  }

  /** No character of `w` is a space. */
  predicate SpaceFree(w: string) {
    forall i :: 0 <= i < |w| ==> w[i] != ' '
  }

  /** The first space-free word of `s`. */
  function LeadingWord(s: string): (w: string)
    ensures w <= s
    ensures SpaceFree(w)
    ensures |w| < |s| ==> s[|w|] == ' '
  {
    if |s| == 0 || s[0] == ' ' then "" else [s[0]] + LeadingWord(s[1..])
  }

  /** The class names of a class attribute: its space-separated words, empty
      words dropped, in order. */
  function ClassTokens(s: string): (ws: seq<string>)
    ensures forall k :: 0 <= k < |ws| ==> |ws[k]| > 0 && ' ' !in ws[k]
    decreases |s|
  {
    if |s| == 0 then []
    else if s[0] == ' ' then ClassTokens(s[1..])
    else
      var w := LeadingWord(s);
      assert w[0] == s[0];
      assert forall c :: c in w ==> c != ' ';
      [w] + ClassTokens(s[|w|..])
  }

  lemma {:induction false} LeadingWordOf(w: string, rest: string)
    requires SpaceFree(w)
    requires |rest| == 0 || rest[0] == ' '
    ensures LeadingWord(w + rest) == w
    decreases |w|
  {
    if |w| > 0 {
      assert (w + rest)[1..] == w[1..] + rest;
      LeadingWordOf(w[1..], rest);
      assert w == [w[0]] + w[1..];
    } else {
      assert w + rest == rest;
    }
  }

  /** A space-free word followed by a space (or nothing) is the first class name. */
  lemma WordThenRest(w: string, rest: string)
    requires |w| > 0 && SpaceFree(w)
    requires |rest| == 0 || rest[0] == ' '
    ensures ClassTokens(w + rest) == [w] + ClassTokens(rest)
  {
    LeadingWordOf(w, rest);
    assert (w + rest)[|w|..] == rest;
  }

  /** A word, a space, and more: the word is the first class name. */
  lemma WordSpaceRest(w: string, x: string)
    requires |w| > 0 && SpaceFree(w)
    ensures ClassTokens(w + (" " + x)) == [w] + ClassTokens(x)
  {
    WordThenRest(w, " " + x);
    assert (" " + x)[1..] == x;
  }

  lemma RowWordsSpaceFree()
    ensures SpaceFree("todo-item") && SpaceFree("completed")
  {
  }

  lemma RowClassText()
    ensures RowClass(true) == "todo-item" + (" " + "completed")
    ensures RowClass(false) == "todo-item" + (" " + "")
  {
  }

  lemma CompletedToken()
    ensures ClassTokens("completed") == ["completed"]
  {
    RowWordsSpaceFree();
    WordThenRest("completed", "");
    assert "completed" + "" == "completed";
  }

  /** The class names of a row are `todo-item`, followed by `completed`
      exactly when the task is completed. */
  lemma RowClassTokens(completed: bool)
    ensures ClassTokens(RowClass(completed))
         == if completed then ["todo-item", "completed"] else ["todo-item"]
  {
    RowWordsSpaceFree();
    RowClassText();
    if completed {
      CompletedToken();
      WordSpaceRest("todo-item", "completed");
    } else {
      assert ClassTokens("") == [];
      WordSpaceRest("todo-item", "");
    }
  }

  lemma RowClassNames(completed: bool)
    ensures "todo-item" in ClassTokens(RowClass(completed))
    ensures "completed" in ClassTokens(RowClass(completed)) <==> completed
  {
    RowClassTokens(completed);
    var names := ClassTokens(RowClass(completed));
    assert names[0] == "todo-item";
    if completed {
      assert names[1] == "completed";
    } else {
      assert names == ["todo-item"];
      assert "todo-item" != "completed";
    }
  }

  /** A rendered row: its element id, class attribute, toggle label and title. */
  datatype Row = Row(elementId: string, className: string, toggleLabel: string, title: string)

  /** `createTodoItem`: the row for a task. From the row alone one reads back
      the task's id and its completion flag, from the class and from the
      toggle label alike. */
  function RenderRow(t: Task): (r: Row)
    ensures r.elementId == ElementId(t.id) && ParseElementId(r.elementId) == Some(t.id)
    ensures "todo-item" in ClassTokens(r.className)
    ensures "completed" in ClassTokens(r.className) <==> t.completed
    ensures r.toggleLabel == "Undo" <==> t.completed
    ensures r.toggleLabel == "Complete" <==> !t.completed
    ensures r.title == t.title
  {
    ElementIdRoundTrip(t.id);
    RowClassNames(t.completed);
    Row(ElementId(t.id), RowClass(t.completed), ToggleLabel(t.completed), t.title)
  }

  // ---------------------------------------------------------------------
  // Remaining-items count

  /** `${count} item${count !== 1 ? "s" : ""} left`. */
  function CountLabel(n: nat): (s: string)
    ensures n == 1 ==> s == "1 item left"
    ensures n != 1 ==> s == FormatNat(n) + " items left"
    ensures ParseInt(s) == Some(n)
  {
    var plural := if n != 1 then "s" else "";
    CountLabelReadsBack(n, plural);
    CountLabelText(n);
    FormatNat(n) + " item" + plural + " left"
  }

  lemma CountLabelText(n: nat)
    ensures FormatNat(n) + " item" + "s" + " left" == FormatNat(n) + " items left"
    ensures FormatNat(1) + " item" + "" + " left" == "1 item left"
  {
    var d := FormatNat(n);
    assert d + " item" + "s" + " left" == d + (" item" + "s" + " left");
    assert " item" + "s" + " left" == " items left";
    assert FormatNat(1) == "1";
    assert " item" + "" + " left" == " item left";
    assert FormatNat(1) + " item" + "" + " left" == "1" + (" item" + "" + " left");
  }

  lemma CountLabelReadsBack(n: nat, plural: string)
    ensures ParseInt(FormatNat(n) + " item" + plural + " left") == Some(n)
  {
    var d := FormatNat(n);
    var suffix := " item" + plural + " left";
    assert d + " item" + plural + " left" == d + suffix;
    assert suffix[0] == ' ';
    assert EndsNumber(suffix);
    ParseFormatNat(n, suffix);
  }

  /** The count label of a store: the number of its incomplete tasks. */
  function UpdateTodoCount(s: Store): (text: string)
    ensures ParseInt(text) == Some(|FilterTodo(s, "active")|)
    ensures |FilterTodo(s, "active")| == 1 ==> text == "1 item left"
    ensures |FilterTodo(s, "active")| != 1 ==> text == FormatNat(|FilterTodo(s, "active")|) + " items left"
    ensures (forall t :: t in s ==> t.completed) ==> text == "0 items left"
  {
    FilterPartition(s);
    CountLabelZero();
    CountLabel(CountActive(s))
  }

  lemma CountLabelZero()
    ensures CountLabel(0) == "0 items left"
  {
    assert FormatNat(0) == "0";
    assert "0" + " items left" == "0 items left";
  }
}
