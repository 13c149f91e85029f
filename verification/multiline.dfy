/** The multi-line text editor of src/cli/multiline.rs as a pure step
    function: the lines being edited, the cursor line and the cursor
    column, and what each key does to them. Raw terminal mode and drawing
    are not part of the model. The column here counts characters; the
    byte column the source keeps is modelled at the end, where it differs. */
module Multiline {
  import opened Wrappers
  import opened Seqs

  /** The modifier keys held with a key press. */
  datatype Modifiers = Modifiers(shift: bool, control: bool, alt: bool)

  const NoModifiers := Modifiers(false, false, false)
  const ShiftOnly := Modifiers(true, false, false)
  const ControlOnly := Modifiers(false, true, false)

  /** The keys the editor tells apart; every other key is `OtherKey`. */
  datatype KeyCode =
    | Char(c: char)
    | Enter | Backspace | Delete
    | Left | Right | Up | Down | Home | End
    | Esc
    | OtherKey

  datatype Key = Key(code: KeyCode, modifiers: Modifiers)

  /** The lines, without their line breaks, and the cursor. */
  datatype Editor = Editor(lines: seq<string>, line: nat, col: nat)

  /** There is a line, the cursor is on one, and its column is within that
      line (the end of the line included). */
  predicate Valid(e: Editor) {
    |e.lines| > 0 && e.line < |e.lines| && e.col <= |e.lines[e.line]|
  }

  /** What a key leads to: more editing, the saved text, or cancellation. */
  datatype Reaction = Editing(editor: Editor) | Saved(text: string) | Cancelled

  // ----- The initial text -----

  /** A line without the carriage return that ended it, if it had one. */
  function StripCr(s: string): (r: string)
    ensures r == s || (s == r + "\r")
  {
    if |s| > 0 && s[|s| - 1] == '\r' then s[..|s| - 1] else s
  }

  /** Where the first line feed of `s` is, if it has one. */
  function LineFeedAt(s: string): (r: Option<nat>)
    ensures r.Some? ==> r.value < |s| && s[r.value] == '\n' && forall i :: 0 <= i < r.value ==> s[i] != '\n'
    ensures r.None? ==> forall i :: 0 <= i < |s| ==> s[i] != '\n'
  {
    if |s| == 0 then None
    else if s[0] == '\n' then Some(0)
    else match LineFeedAt(s[1..])
      case None => None
      case Some(i) => Some(i + 1)
  }

  /** `str::lines`: split at each line feed, drop a carriage return just
      before one, and give no empty line after a final line feed. */
  function Lines(s: string): (ls: seq<string>)
    ensures |s| > 0 <==> |ls| > 0
    decreases |s|
  {
    if |s| == 0 then []
    else
      match LineFeedAt(s)
      case None => [s]
      case Some(i) => [StripCr(s[..i])] + Lines(s[i + 1..])
  }

  /** The state `run_editor` starts in: the lines of the initial text (one
      empty line for none), the cursor at the end of the last line. */
  function Initial(initial: string): (e: Editor)
    ensures Valid(e)
    ensures initial == "" ==> e.lines == [""]
    ensures initial != "" ==> e.lines == Lines(initial)
    ensures e.line == |e.lines| - 1 && e.col == |e.lines[e.line]|
  {
    var lines := if initial == "" then [""] else Lines(initial);
    var lines := if |lines| == 0 then [""] else lines;
    Editor(lines, |lines| - 1, |lines[|lines| - 1]|)
  }

  /** A text without carriage returns that does not end in a line feed is
      split into lines that join back to it. */
  lemma {:induction false} LinesJoin(s: string)
    requires |s| > 0 && s[|s| - 1] != '\n'
    requires forall i :: 0 <= i < |s| ==> s[i] != '\r'
    ensures Join(Lines(s), "\n") == s
    decreases |s|
  {
    match LineFeedAt(s)
    case None =>
    case Some(i) =>
      var head, rest := s[..i], s[i + 1..];
      LinesAt(s, i);
      NoCrHead(s, i);
      assert |rest| > 0 && rest[|rest| - 1] == s[|s| - 1];
      assert forall k :: 0 <= k < |rest| ==> rest[k] == s[i + 1 + k];
      LinesJoin(rest);
      JoinCons(head, Lines(rest), "\n");
      assert s == head + "\n" + rest;
  }

  /** `Lines` takes the text up to the first line feed as its first line. */
  lemma LinesAt(s: string, i: nat)
    requires LineFeedAt(s) == Some(i)
    ensures Lines(s) == [StripCr(s[..i])] + Lines(s[i + 1..])
  {
  }

  /** A line without carriage returns loses nothing to `StripCr`. */
  lemma NoCrHead(s: string, i: nat)
    requires i < |s|
    requires forall k :: 0 <= k < |s| ==> s[k] != '\r'
    ensures StripCr(s[..i]) == s[..i]
  {
    if i > 0 {
      assert s[..i][i - 1] == s[i - 1];
    }
  }

  /** Joining a first item onto a nonempty rest puts the separator between
      them. */
  lemma JoinCons<T>(x: seq<T>, rest: seq<seq<T>>, sep: seq<T>)
    requires |rest| > 0
    ensures Join([x] + rest, sep) == x + sep + Join(rest, sep)
  {
    assert ([x] + rest)[1..] == rest;
  }

  /** Saving straight away gives back such a text unchanged. */
  lemma SaveInitial(s: string)
    requires |s| > 0 && s[|s| - 1] != '\n'
    requires forall i :: 0 <= i < |s| ==> s[i] != '\r'
    ensures Step(Initial(s), Key(Char('d'), ControlOnly)) == Saved(s)
  {
    LinesJoin(s);
  }

  // ----- Keys -----

  /** One key: Ctrl+D saves the lines joined by line feeds, Esc cancels,
      any other key edits. */
  function Step(e: Editor, k: Key): (r: Reaction)
    requires Valid(e)
    ensures r.Saved? <==> k == Key(Char('d'), ControlOnly)
    ensures r.Saved? ==> r.text == Join(e.lines, "\n")
    ensures r.Cancelled? <==> k.code == Esc
    ensures r.Editing? ==> Valid(r.editor)
  {
    if k.code == Char('d') && k.modifiers == ControlOnly then Saved(Join(e.lines, "\n"))
    else if k.code == Esc then Cancelled
    else Editing(Edit(e, k))
  }

  function Min(a: nat, b: nat): nat {
    if a <= b then a else b
  }

  /** The edit a key makes. A character is typed only without modifiers or
      with Shift alone; other keys act whatever modifiers are held. */
  function Edit(e: Editor, k: Key): (r: Editor)
    requires Valid(e)
    ensures Valid(r)
  {
    var lines, line, col := e.lines, e.line, e.col;
    var cur := lines[line];
    match k.code
    case Enter =>
      Editor(lines[..line] + [cur[..col], cur[col..]] + lines[line + 1..], line + 1, 0)
    case Backspace =>
      if col > 0 then Editor(lines[line := cur[..col - 1] + cur[col..]], line, col - 1)
      else if line > 0 then
        var prev := lines[line - 1];
        Editor(lines[..line - 1] + [prev + cur] + lines[line + 1..], line - 1, |prev|)
      else e
    case Delete =>
      if col < |cur| then Editor(lines[line := cur[..col] + cur[col + 1..]], line, col)
      else if line < |lines| - 1 then
        Editor(lines[..line] + [cur + lines[line + 1]] + lines[line + 2..], line, col)
      else e
    case Left =>
      if col > 0 then e.(col := col - 1)
      else if line > 0 then Editor(lines, line - 1, |lines[line - 1]|)
      else e
    case Right =>
      if col < |cur| then e.(col := col + 1)
      else if line < |lines| - 1 then Editor(lines, line + 1, 0)
      else e
    case Up =>
      if line > 0 then Editor(lines, line - 1, Min(col, |lines[line - 1]|)) else e
    case Down =>
      if line < |lines| - 1 then Editor(lines, line + 1, Min(col, |lines[line + 1]|)) else e
    case Home => e.(col := 0)
    case End => e.(col := |cur|)
    case Char(c) =>
      if k.modifiers == NoModifiers || k.modifiers == ShiftOnly then
        Editor(lines[line := cur[..col] + [c] + cur[col..]], line, col + 1)
      else e
    case Esc => e
    case OtherKey => e
  }

  /** A run of keys: editing goes on until a key saves or cancels. */
  function Run(e: Editor, keys: seq<Key>): (r: Reaction)
    requires Valid(e)
    ensures r.Editing? ==> Valid(r.editor)
    ensures r.Editing? ==> forall i :: 0 <= i < |keys| ==> keys[i].code != Esc
    decreases |keys|
  {
    if |keys| == 0 then Editing(e)
    else
      match Step(e, keys[0])
      case Editing(next) =>
        var r := Run(next, keys[1..]);
        assert forall i :: 1 <= i < |keys| ==> keys[i] == keys[1..][i - 1];
        r
      case Saved(text) => Saved(text)
      case Cancelled => Cancelled
  }

  // ----- What the keys do -----

  /** All the text, line breaks left out. */
  function Text(e: Editor): string {
    Flatten(e.lines)
  }

  /** Enter splits the line at the cursor: one more line, the same text,
      the cursor at the start of the new line. */
  lemma EnterSplits(e: Editor, m: Modifiers)
    requires Valid(e)
    ensures var r := Edit(e, Key(Enter, m));
            && |r.lines| == |e.lines| + 1
            && Text(r) == Text(e)
            && r.line == e.line + 1 && r.col == 0
            && r.lines[e.line] == e.lines[e.line][..e.col] && r.lines[e.line + 1] == e.lines[e.line][e.col..]
  {
    var lines, line, col := e.lines, e.line, e.col;
    var cur := lines[line];
    var before, after := lines[..line], lines[line + 1..];
    assert lines == before + [cur] + after;
    FlattenAppend(before + [cur[..col], cur[col..]], after);
    FlattenAppend(before, [cur[..col], cur[col..]]);
    FlattenAppend(before + [cur], after);
    FlattenAppend(before, [cur]);
    assert Flatten([cur[..col], cur[col..]]) == cur[..col] + cur[col..];
    assert cur[..col] + cur[col..] == cur;
  }

  /** Backspace at the very start does nothing. */
  lemma BackspaceAtStart(e: Editor, m: Modifiers)
    requires Valid(e) && e.line == 0 && e.col == 0
    ensures Edit(e, Key(Backspace, m)) == e
  {
  }

  /** Backspace at the start of a later line joins it onto the line above,
      keeping the text, with the cursor where the two met. */
  lemma BackspaceJoins(e: Editor, m: Modifiers)
    requires Valid(e) && e.line > 0 && e.col == 0
    ensures var r := Edit(e, Key(Backspace, m));
            && |r.lines| == |e.lines| - 1
            && r.lines[e.line - 1] == e.lines[e.line - 1] + e.lines[e.line]
            && r.line == e.line - 1 && r.col == |e.lines[e.line - 1]|
            && Text(r) == Text(e)
  {
    var lines, line := e.lines, e.line;
    var prev, cur := lines[line - 1], lines[line];
    var before, after := lines[..line - 1], lines[line + 1..];
    assert lines == before + [prev, cur] + after;
    FlattenAppend(before + [prev + cur], after);
    FlattenAppend(before, [prev + cur]);
    FlattenAppend(before + [prev, cur], after);
    FlattenAppend(before, [prev, cur]);
    assert Flatten([prev, cur]) == prev + cur;
  }

  /** Typing a character and then Backspace restores lines and cursor. */
  lemma TypeThenBackspace(e: Editor, c: char, m: Modifiers, m': Modifiers)
    requires Valid(e) && (m == NoModifiers || m == ShiftOnly)
    ensures Edit(Edit(e, Key(Char(c), m)), Key(Backspace, m')) == e
  {
    var cur := e.lines[e.line];
    var typed := cur[..e.col] + [c] + cur[e.col..];
    assert typed[..e.col] + typed[e.col + 1..] == cur;
  }

  /** Enter and then Backspace restore lines and cursor. */
  lemma EnterThenBackspace(e: Editor, m: Modifiers, m': Modifiers)
    requires Valid(e)
    ensures Edit(Edit(e, Key(Enter, m)), Key(Backspace, m')) == e
  {
    var lines, line, col := e.lines, e.line, e.col;
    var cur := lines[line];
    var split := Edit(e, Key(Enter, m));
    var joined := Edit(split, Key(Backspace, m'));
    assert split.lines[..line] == lines[..line];
    assert split.lines[line + 2..] == lines[line + 1..];
    assert cur[..col] + cur[col..] == cur;
    assert joined.lines == lines;
  }

  /** Delete at the end of the last line does nothing. */
  lemma DeleteAtEnd(e: Editor, m: Modifiers)
    requires Valid(e) && e.line == |e.lines| - 1 && e.col == |e.lines[e.line]|
    ensures Edit(e, Key(Delete, m)) == e
  {
  }

  /** Delete at the end of an earlier line joins the next line onto it,
      keeping the text and the cursor. */
  lemma DeleteJoins(e: Editor, m: Modifiers)
    requires Valid(e) && e.line < |e.lines| - 1 && e.col == |e.lines[e.line]|
    ensures var r := Edit(e, Key(Delete, m));
            && |r.lines| == |e.lines| - 1
            && r.lines[e.line] == e.lines[e.line] + e.lines[e.line + 1]
            && r.line == e.line && r.col == e.col
            && Text(r) == Text(e)
  {
    var lines, line := e.lines, e.line;
    var cur, next := lines[line], lines[line + 1];
    var before, after := lines[..line], lines[line + 2..];
    assert lines == before + [cur, next] + after;
    FlattenAppend(before + [cur + next], after);
    FlattenAppend(before, [cur + next]);
    FlattenAppend(before + [cur, next], after);
    FlattenAppend(before, [cur, next]);
    assert Flatten([cur, next]) == cur + next;
  }

  /** Up and Down move one line, clamping the column to the new line's
      length, and do nothing on the first and last line. */
  lemma UpDownClamp(e: Editor, m: Modifiers)
    requires Valid(e)
    ensures var up := Edit(e, Key(Up, m));
            && up.lines == e.lines
            && (e.line == 0 ==> up == e)
            && (e.line > 0 ==> (up.line == e.line - 1
                                && up.col == (if e.col <= |e.lines[e.line - 1]| then e.col else |e.lines[e.line - 1]|)))
    ensures var down := Edit(e, Key(Down, m));
            && down.lines == e.lines
            && (e.line == |e.lines| - 1 ==> down == e)
            && (e.line < |e.lines| - 1 ==> (down.line == e.line + 1
                                            && down.col == (if e.col <= |e.lines[e.line + 1]| then e.col else |e.lines[e.line + 1]|)))
  {
  }

  /** A character typed with Control or Alt held changes nothing, except
      Ctrl+D, which saves. */
  lemma ModifiedCharIgnored(e: Editor, c: char, m: Modifiers)
    requires Valid(e) && m != NoModifiers && m != ShiftOnly
    requires !(c == 'd' && m == ControlOnly)
    ensures Step(e, Key(Char(c), m)) == Editing(e)
  {
  }

  /** Esc cancels whatever was typed before it. */
  lemma EscCancels(e: Editor, keys: seq<Key>, m: Modifiers)
    requires Valid(e)
    requires forall i :: 0 <= i < |keys| ==> keys[i] != Key(Char('d'), ControlOnly) && keys[i].code != Esc
    ensures Run(e, keys + [Key(Esc, m)]) == Cancelled
    decreases |keys|
  {
    if |keys| == 0 {
      assert Run(e, [Key(Esc, m)]) == Cancelled;
    } else {
      var next := Step(e, keys[0]).editor;
      assert (keys + [Key(Esc, m)])[1..] == keys[1..] + [Key(Esc, m)];
      EscCancels(next, keys[1..], m);
    }
  }

  // ----- Byte columns -----

  /** How many bytes UTF-8 takes for a character (`char::len_utf8`). */
  function Utf8Width(c: char): (n: nat)
    ensures 1 <= n <= 4
    ensures c as int < 0x80 <==> n == 1
  {
    if c as int < 0x80 then 1
    else if c as int < 0x800 then 2
    else if c as int < 0x1_0000 then 3
    else 4
  }

  /** The UTF-8 length of a text, which is what a Rust `String` counts. */
  function ByteLen(s: string): nat {
    if |s| == 0 then 0 else Utf8Width(s[0]) + ByteLen(s[1..])
  }

  lemma {:induction false} ByteLenAppend(a: string, b: string)
    ensures ByteLen(a + b) == ByteLen(a) + ByteLen(b)
  {
    if |a| > 0 {
      assert (a + b)[1..] == a[1..] + b;
      ByteLenAppend(a[1..], b);
    } else {
      assert a + b == b;
    }
  }

  /** A byte offset that starts a character (or ends the text): the only
      offsets at which a Rust `String` accepts an insertion or removal. */
  predicate OnBoundary(s: string, b: nat) {
    exists k :: 0 <= k <= |s| && ByteLen(s[..k]) == b
  }

  /** Typing `c` at character `k` of `line`, as the editor does it: the
      character goes in, and the byte column moves on by one. */
  function TypeAsWritten(line: string, k: nat, c: char): (r: (string, nat))
    requires k <= |line|
    ensures r.0 == line[..k] + [c] + line[k..]
    ensures r.1 == ByteLen(line[..k]) + 1
  {
    (line[..k] + [c] + line[k..], ByteLen(line[..k]) + 1)
  }

  /** Typing a character wider than a byte leaves the byte column inside
      it, where the next insertion or removal panics: on an empty line, 'é'
      (two bytes) puts the column at 1. */
  lemma TypedCursorOffBoundary()
    ensures var r := TypeAsWritten("", 0, 'é');
            r.0 == "é" && r.1 == 1 && !OnBoundary(r.0, r.1)
  {
    var r := TypeAsWritten("", 0, 'é');
    assert r.0 == "é";
    assert ByteLen(r.0[..0]) == 0;
    assert r.0[..1] == "é";
    assert ByteLen(r.0[..1]) == 2;
  }

  /** Typing `c` with the column moved on by `c.len_utf8()` instead. */
  function Type(line: string, k: nat, c: char): (r: (string, nat))
    requires k <= |line|
    ensures r.0 == line[..k] + [c] + line[k..]
  {
    (line[..k] + [c] + line[k..], ByteLen(line[..k]) + Utf8Width(c))
  }

  /** The corrected byte column is the boundary just after the typed
      character, which is where `Edit`'s character column puts it. */
  lemma TypedCursorOnBoundary(line: string, k: nat, c: char)
    requires k <= |line|
    ensures var r := Type(line, k, c);
            OnBoundary(r.0, r.1) && r.1 == ByteLen(r.0[..k + 1])
    ensures Type(line, k, c).0 == TypeAsWritten(line, k, c).0
    ensures Type(line, k, c).1 == TypeAsWritten(line, k, c).1 <==> Utf8Width(c) == 1
  {
    var r := Type(line, k, c);
    assert r.0[..k + 1] == line[..k] + [c];
    ByteLenAppend(line[..k], [c]);
    assert ByteLen([c]) == Utf8Width(c) by {
      assert [c][1..] == [];
    }
  }

  /** On text typed with `Edit`, the character column of a key is the
      corrected byte column of `Type`. */
  lemma EditTypes(e: Editor, c: char, m: Modifiers)
    requires Valid(e) && (m == NoModifiers || m == ShiftOnly)
    ensures var r := Edit(e, Key(Char(c), m));
            var t := Type(e.lines[e.line], e.col, c);
            r.lines[r.line] == t.0 && ByteLen(r.lines[r.line][..r.col]) == t.1
  {
    TypedCursorOnBoundary(e.lines[e.line], e.col, c);
  }
}
