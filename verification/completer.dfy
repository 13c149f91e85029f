/** Tab completion in the shell (src/cli/completer.rs): command names while
    the first word is typed, file names after a command that takes a path,
    nothing otherwise. File-name completion belongs to the line-editing
    library and appears here only as the decision to hand over to it. */
module Completer {
  import opened Ascii
  import opened Seqs

  /** A completion candidate: the text shown and the text inserted. */
  datatype Pair = Pair(display: string, replacement: string)

  /** The answer of `complete`: candidates replacing the text from `start`
      on, or the file-name completer's answer for the same line. */
  datatype Completion = Candidates(start: nat, pairs: seq<Pair>) | Filenames(line: string, pos: nat)

  /** Commands that take a file path. */
  const FileCommands: seq<string> := ["add", "link", "hash"]

  /** Every command, in the order completions are offered. */
  const AllCommands: seq<string> := ["add", "link", "list", "ls", "search", "hash", "help", "quit", "exit"]

  function HasPrefix(prefix: string): string -> bool {
    (c: string) => StartsWith(c, prefix)
  }

  function AsPair(c: string): Pair {
    Pair(c, c)
  }

  /** The names in `commands` that start with `prefix`, as candidates. */
  function CompletionsIn(commands: seq<string>, prefix: string): (r: seq<Pair>)
    ensures forall c :: AsPair(c) in r <==> c in commands && StartsWith(c, prefix)
    ensures forall p :: p in r ==> p.display == p.replacement
    ensures |r| <= |commands|
  {
    FilterMembers(commands, HasPrefix(prefix));
    PairsOf(Filter(commands, HasPrefix(prefix)))
  }

  /** `command_completions`: the commands that start with `prefix`. */
  function CommandCompletions(prefix: string): (r: seq<Pair>)
    ensures forall c :: AsPair(c) in r <==> c in AllCommands && StartsWith(c, prefix)
    ensures forall p :: p in r ==> p.display == p.replacement
  {
    CompletionsIn(AllCommands, prefix)
  }

  /** Each name as a candidate showing and inserting it. */
  function PairsOf(names: seq<string>): (r: seq<Pair>)
    ensures |r| == |names|
    ensures forall k :: 0 <= k < |names| ==> r[k] == AsPair(names[k])
    ensures forall c :: AsPair(c) in r <==> c in names
    ensures forall p :: p in r ==> p.display == p.replacement
  {
    if |names| == 0 then [] else [AsPair(names[0])] + PairsOf(names[1..])
  }

  /** The completions come in list order: candidate `k` is the name at
      position `at[k]`, the positions increase, and no matching name is
      missed. */
  lemma CompletionsInListOrder(commands: seq<string>, prefix: string) returns (at: seq<nat>)
    ensures |at| == |CompletionsIn(commands, prefix)|
    ensures forall k :: 0 <= k < |at| ==> at[k] < |commands| && CompletionsIn(commands, prefix)[k] == AsPair(commands[at[k]])
    ensures forall a, b :: 0 <= a < b < |at| ==> at[a] < at[b]
    ensures forall i :: 0 <= i < |commands| && StartsWith(commands[i], prefix) ==> i in at
  {
    at := Positions(commands, HasPrefix(prefix));
    FilterAtPositions(commands, HasPrefix(prefix));
    PositionsAscend(commands, HasPrefix(prefix));
    forall i | 0 <= i < |commands| && StartsWith(commands[i], prefix) ensures i in at {
      PositionsComplete(commands, HasPrefix(prefix), i);
    }
  }

  /** The empty prefix offers every command, in list order. */
  lemma EmptyPrefixOffersAll()
    ensures CommandCompletions("") == PairsOf(AllCommands)
  {
    EmptyPrefixKeepsAll(AllCommands);
  }

  lemma EmptyPrefixKeepsAll(commands: seq<string>)
    ensures CompletionsIn(commands, "") == PairsOf(commands)
  {
    FilterAllKept(commands, HasPrefix(""));
  }

  /** `char::is_whitespace`: the 25 code points with the Unicode
      White_Space property, which `split_whitespace` splits at. */
  const WhiteSpace: set<char> := {
    '\t', '\n', '\U{000B}', '\U{000C}', '\r', ' ', '\U{0085}', '\U{00A0}', '\U{1680}',
    '\U{2000}', '\U{2001}', '\U{2002}', '\U{2003}', '\U{2004}', '\U{2005}', '\U{2006}',
    '\U{2007}', '\U{2008}', '\U{2009}', '\U{200A}',
    '\U{2028}', '\U{2029}', '\U{202F}', '\U{205F}', '\U{3000}'
  }

  predicate IsWhitespace(c: char) {
    c in WhiteSpace
  }

  /** U+212A KELVIN SIGN, which Unicode lowercases to 'k'. */
  const KelvinSign: char := '\U{212A}'

  /** `str::to_lowercase` as far as a comparison with the command names
      can tell: ASCII capitals become small letters and the Kelvin sign
      becomes 'k'. No other character lowercases to an ASCII letter, and
      the command names are ASCII, so a lowercased word is a prefix of a
      command, or equals one, exactly when this one is or does. */
  function CommandLower(s: string): (r: string)
    ensures |r| == |s|
    ensures forall i :: 0 <= i < |s| && s[i] != KelvinSign ==> r[i] == LowerChar(s[i])
    ensures forall i :: 0 <= i < |s| && s[i] == KelvinSign ==> r[i] == 'k'
  {
    seq(|s|, i requires 0 <= i < |s| => if s[i] == KelvinSign then 'k' else LowerChar(s[i]))
  }

  /** The length of the run of non-whitespace that starts `s`. */
  function WordLength(s: string): (n: nat)
    ensures n <= |s|
    ensures forall i :: 0 <= i < n ==> !IsWhitespace(s[i])
    ensures n < |s| ==> IsWhitespace(s[n])
  {
    if |s| == 0 || IsWhitespace(s[0]) then 0 else 1 + WordLength(s[1..])
  }

  /** `split_whitespace`: the maximal runs of non-whitespace, in order. */
  function Words(s: string): (ws: seq<string>)
    ensures forall k :: 0 <= k < |ws| ==> IsWord(ws[k])
    ensures ws == [] <==> Blank(s)
    decreases |s|
  {
    if |s| == 0 then []
    else if IsWhitespace(s[0]) then
      var ws := Words(s[1..]);
      assert forall i :: 1 <= i < |s| ==> s[i] == s[1..][i - 1];
      ws
    else
      var n := WordLength(s);
      [s[..n]] + Words(s[n..])
  }

  /** The words hold every non-whitespace character of the text, in order. */
  lemma {:induction false} WordsKeepText(s: string)
    ensures Flatten(Words(s)) == Filter(s, NotWhitespace)
    decreases |s|
  {
    if |s| > 0 {
      if IsWhitespace(s[0]) {
        WordsKeepText(s[1..]);
      } else {
        var n := WordLength(s);
        WordsKeepText(s[n..]);
        FilterWord(s, n);
        assert Words(s) == [s[..n]] + Words(s[n..]);
        assert Flatten(Words(s)) == s[..n] + Flatten(Words(s[n..]));
      }
    }
  }

  function NotWhitespace(c: char): bool {
    !IsWhitespace(c)
  }

  /** Filtering a text that starts with `n` non-whitespace characters keeps
      them and then filters the rest. */
  lemma FilterWord(s: string, n: nat)
    requires n <= |s| && forall i :: 0 <= i < n ==> !IsWhitespace(s[i])
    ensures Filter(s, NotWhitespace) == s[..n] + Filter(s[n..], NotWhitespace)
  {
    FilterKeptPrefix(s, NotWhitespace, n);
  }

  // ----- Words as the runs between whitespace -----

  /** A text of whitespace only, possibly empty. */
  predicate Blank(g: string) {
    forall i :: 0 <= i < |g| ==> IsWhitespace(g[i])
  }

  /** A non-empty run of non-whitespace. */
  predicate IsWord(w: string) {
    |w| > 0 && forall i :: 0 <= i < |w| ==> !IsWhitespace(w[i])
  }

  /** The text `gaps[0] + ws[0] + gaps[1] + ... + ws[n-1] + gaps[n]`. */
  function Interleave(gaps: seq<string>, ws: seq<string>): string
    requires |gaps| == |ws| + 1
    decreases |ws|
  {
    if |ws| == 0 then gaps[0] else gaps[0] + ws[0] + Interleave(gaps[1..], ws[1..])
  }

  /** Words with whitespace between each two of them, and whitespace or
      nothing before the first and after the last. */
  predicate Layout(gaps: seq<string>, ws: seq<string>) {
    && |gaps| == |ws| + 1
    && (forall k :: 0 <= k < |gaps| ==> Blank(gaps[k]))
    && (forall k :: 0 < k < |ws| ==> |gaps[k]| > 0)
    && (forall k :: 0 <= k < |ws| ==> IsWord(ws[k]))
  }

  /** Leading whitespace adds no word. */
  lemma {:induction false} WordsSkipBlank(g: string, s: string)
    requires Blank(g)
    ensures Words(g + s) == Words(s)
    decreases |g|
  {
    if |g| == 0 {
      assert g + s == s;
    } else {
      assert (g + s)[0] == g[0];
      assert (g + s)[1..] == g[1..] + s;
      WordsSkipBlank(g[1..], s);
    }
  }

  /** A word followed by whitespace, or by nothing, is the first word. */
  lemma WordsTakeWord(w: string, s: string)
    requires IsWord(w) && (|s| == 0 || IsWhitespace(s[0]))
    ensures Words(w + s) == [w] + Words(s)
  {
    var t := w + s;
    assert forall i :: 0 <= i < |w| ==> t[i] == w[i];
    assert |s| > 0 ==> t[|w|] == s[0];
    assert WordLength(t) == |w|;
    assert t[0] == w[0];
    assert t[..|w|] == w && t[|w|..] == s;
  }

  /** The layout text starts with its first gap. */
  lemma InterleaveStarts(gaps: seq<string>, ws: seq<string>)
    requires |gaps| == |ws| + 1
    ensures |gaps[0]| <= |Interleave(gaps, ws)| && Interleave(gaps, ws)[..|gaps[0]|] == gaps[0]
  {
  }

  /** Text put before the first gap comes out before the whole layout. */
  lemma InterleavePrepend(gaps: seq<string>, ws: seq<string>, p: string)
    requires |gaps| == |ws| + 1
    ensures Interleave([p + gaps[0]] + gaps[1..], ws) == p + Interleave(gaps, ws)
  {
    var gaps' := [p + gaps[0]] + gaps[1..];
    assert gaps'[1..] == gaps[1..];
    if |ws| > 0 {
      assert Interleave(gaps', ws) == (p + gaps[0]) + ws[0] + Interleave(gaps[1..], ws[1..]);
    }
  }

  /** Splitting a layout gives back its words. */
  lemma {:induction false} WordsOfLayout(gaps: seq<string>, ws: seq<string>)
    requires Layout(gaps, ws)
    ensures Words(Interleave(gaps, ws)) == ws
    decreases |ws|
  {
    if |ws| == 0 {
      WordsSkipBlank(gaps[0], "");
      assert gaps[0] + "" == gaps[0];
    } else {
      LayoutTail(gaps, ws);
      WordsOfLayout(gaps[1..], ws[1..]);
      WordsOfLayoutStep(gaps, ws);
    }
  }

  /** The step of `WordsOfLayout`: the first gap adds no word, and the
      first word is followed by whitespace or nothing. */
  lemma WordsOfLayoutStep(gaps: seq<string>, ws: seq<string>)
    requires Layout(gaps, ws) && |ws| > 0
    requires Words(Interleave(gaps[1..], ws[1..])) == ws[1..]
    ensures Words(Interleave(gaps, ws)) == ws
  {
    var rest := Interleave(gaps[1..], ws[1..]);
    NextGapFirst(gaps, ws);
    assert Words(ws[0] + rest) == ws by {
      WordsTakeWord(ws[0], rest);
      assert ws == [ws[0]] + ws[1..];
    }
    WordsSkipBlank(gaps[0], ws[0] + rest);
    assert Interleave(gaps, ws) == gaps[0] + (ws[0] + rest);
  }

  /** Dropping the first gap and word of a layout leaves a layout. */
  lemma LayoutTail(gaps: seq<string>, ws: seq<string>)
    requires Layout(gaps, ws) && |ws| > 0
    ensures Layout(gaps[1..], ws[1..])
  {
    assert forall k :: 0 <= k < |gaps| - 1 ==> gaps[1..][k] == gaps[k + 1];
    assert forall k :: 0 <= k < |ws| - 1 ==> ws[1..][k] == ws[k + 1];
  }

  /** What follows the first word of a layout starts with whitespace, if
      anything follows it. */
  lemma NextGapFirst(gaps: seq<string>, ws: seq<string>)
    requires Layout(gaps, ws) && |ws| > 0
    ensures var rest := Interleave(gaps[1..], ws[1..]);
            |rest| == 0 || IsWhitespace(rest[0])
  {
    var rest := Interleave(gaps[1..], ws[1..]);
    InterleaveStarts(gaps[1..], ws[1..]);
    if |ws| == 1 {
      assert rest == gaps[1..][0];
    }
    assert |rest| > 0 ==> rest[0] == rest[..|gaps[1]|][0];
  }

  /** Every text is a layout of its words: they are the maximal runs of
      non-whitespace, and what lies between them is whitespace. */
  lemma {:induction false} WordsLayout(s: string) returns (gaps: seq<string>)
    ensures Layout(gaps, Words(s)) && Interleave(gaps, Words(s)) == s
    ensures |s| > 0 && IsWhitespace(s[0]) ==> |gaps[0]| > 0
    decreases |s|
  {
    if |s| == 0 {
      gaps := [""];
    } else if IsWhitespace(s[0]) {
      var g' := WordsLayout(s[1..]);
      gaps := LayoutAfterBlank(s, g');
    } else {
      var n := WordLength(s);
      var g' := WordsLayout(s[n..]);
      gaps := LayoutAfterWord(s, n, g');
    }
  }

  /** A layout of the text after a leading whitespace character extends to
      one of the whole text. */
  lemma LayoutAfterBlank(s: string, g': seq<string>) returns (gaps: seq<string>)
    requires |s| > 0 && IsWhitespace(s[0])
    requires Layout(g', Words(s[1..])) && Interleave(g', Words(s[1..])) == s[1..]
    ensures Layout(gaps, Words(s)) && Interleave(gaps, Words(s)) == s
    ensures |gaps[0]| > 0
  {
    var ws := Words(s[1..]);
    assert Words(s) == ws;
    gaps := [[s[0]] + g'[0]] + g'[1..];
    assert Blank(gaps[0]) by {
      forall i | 0 <= i < |gaps[0]| ensures IsWhitespace(gaps[0][i]) {
        if i > 0 { assert gaps[0][i] == g'[0][i - 1]; }
      }
    }
    assert forall k :: 0 < k < |gaps| ==> gaps[k] == g'[k];
    InterleavePrepend(g', ws, [s[0]]);
    assert s == [s[0]] + s[1..];
  }

  /** A layout of the text after a leading word of length `n` extends to
      one of the whole text. */
  lemma LayoutAfterWord(s: string, n: nat, g': seq<string>) returns (gaps: seq<string>)
    requires |s| > 0 && !IsWhitespace(s[0]) && n == WordLength(s)
    requires Layout(g', Words(s[n..])) && Interleave(g', Words(s[n..])) == s[n..]
    requires |s[n..]| > 0 && IsWhitespace(s[n..][0]) ==> |g'[0]| > 0
    ensures Layout(gaps, Words(s)) && Interleave(gaps, Words(s)) == s
  {
    gaps := [""] + g';
    WordsOfWordFirst(s, n);
    WordFirstLayout(s, n, g');
    WordFirstText(s, n, g', Words(s[n..]));
  }

  lemma WordFirstLayout(s: string, n: nat, g': seq<string>)
    requires |s| > 0 && !IsWhitespace(s[0]) && n == WordLength(s)
    requires Layout(g', Words(s[n..]))
    requires |s[n..]| > 0 && IsWhitespace(s[n..][0]) ==> |g'[0]| > 0
    ensures Layout([""] + g', Words(s))
  {
    WordsOfWordFirst(s, n);
    LayoutCons(s[..n], g', Words(s[n..]));
  }

  lemma WordFirstText(s: string, n: nat, g': seq<string>, ws': seq<string>)
    requires n <= |s| && |g'| == |ws'| + 1 && Interleave(g', ws') == s[n..]
    ensures Interleave([""] + g', [s[..n]] + ws') == s
  {
    InterleaveCons(s[..n], g', ws');
    assert s[..n] + s[n..] == s;
  }

  /** A text that starts with a word splits into that word and the words
      after it. */
  lemma WordsOfWordFirst(s: string, n: nat)
    requires |s| > 0 && !IsWhitespace(s[0]) && n == WordLength(s)
    ensures IsWord(s[..n]) && Words(s) == [s[..n]] + Words(s[n..])
  {
  }

  /** A word put in front of a layout, with no gap before it, gives a
      layout when whitespace separates it from the next word. */
  lemma LayoutCons(w: string, g': seq<string>, ws': seq<string>)
    requires IsWord(w) && Layout(g', ws')
    requires |ws'| > 0 ==> |g'[0]| > 0
    ensures Layout([""] + g', [w] + ws')
  {
    var gaps, ws := [""] + g', [w] + ws';
    assert forall k :: 0 < k < |gaps| ==> gaps[k] == g'[k - 1];
    assert forall k :: 0 < k < |ws| ==> ws[k] == ws'[k - 1];
  }

  lemma InterleaveCons(w: string, g': seq<string>, ws': seq<string>)
    requires |g'| == |ws'| + 1
    ensures Interleave([""] + g', [w] + ws') == w + Interleave(g', ws')
  {
    var gaps, ws := [""] + g', [w] + ws';
    assert gaps[1..] == g' && ws[1..] == ws';
    assert "" + w == w;
  }

  /** The text typed so far ends with a space. */
  predicate EndsWithSpace(s: string) {
    |s| > 0 && s[|s| - 1] == ' '
  }

  /** `complete` for the cursor at `pos`: only the text before the cursor
      counts. With no word yet, every command; while the first word is
      being typed, the commands starting with it in lower case; after
      add, link or hash, file names; after any other command, nothing.
      `pos` counts characters; the line editor's byte offset always falls
      on a character boundary, where the two name the same cursor. */
  function Complete(line: string, pos: nat): (r: Completion)
    requires pos <= |line|
    ensures Blank(line[..pos]) ==> r == Candidates(0, CommandCompletions(""))
    ensures r.Filenames? ==> r == Filenames(line, pos)
    ensures r.Candidates? && r.start > 0 ==> r == Candidates(pos, [])
    ensures var parts := Words(line[..pos]);
            && (|parts| == 0 ==> r == Candidates(0, CommandCompletions("")))
            && (|parts| == 1 && !EndsWithSpace(line[..pos]) ==>
                  r == Candidates(0, CommandCompletions(CommandLower(parts[0]))))
            && (|parts| > 1 || (|parts| == 1 && EndsWithSpace(line[..pos])) ==>
                  (r.Filenames? <==> CommandLower(parts[0]) in FileCommands))
            && (|parts| > 1 || (|parts| == 1 && EndsWithSpace(line[..pos])) ==>
                  (r.Candidates? ==> r == Candidates(pos, [])))
  {
    var upto := line[..pos];
    var parts := Words(upto);
    if |parts| == 0 then Candidates(0, CommandCompletions(""))
    else
      var cmd := CommandLower(parts[0]);
      if |parts| == 1 && !EndsWithSpace(upto) then Candidates(0, CommandCompletions(cmd))
      else if cmd in FileCommands then Filenames(line, pos)
      else Candidates(pos, [])
  }

  /** The completion at a cursor after words laid out with whitespace:
      every command with no word; the commands a lone first word begins
      while no space follows it; otherwise file names after add, link or
      hash and nothing after any other command. */
  lemma CompleteByLayout(gaps: seq<string>, ws: seq<string>, line: string, pos: nat)
    requires Layout(gaps, ws) && pos <= |line| && line[..pos] == Interleave(gaps, ws)
    ensures |ws| == 0 ==> Complete(line, pos) == Candidates(0, CommandCompletions(""))
    ensures |ws| == 1 && !EndsWithSpace(gaps[1]) ==>
              Complete(line, pos) == Candidates(0, CommandCompletions(CommandLower(ws[0])))
    ensures |ws| > 1 || (|ws| == 1 && EndsWithSpace(gaps[1])) ==>
              Complete(line, pos)
              == if CommandLower(ws[0]) in FileCommands then Filenames(line, pos) else Candidates(pos, [])
  {
    if |ws| == 0 {
      WordsOfLayout(gaps, ws);
    } else if |ws| == 1 && !EndsWithSpace(gaps[1]) {
      CompleteLoneWord(gaps, ws, line, pos);
    } else {
      CompleteAfterWords(gaps, ws, line, pos);
    }
  }

  /** A lone word not followed by a space completes as a command name. */
  lemma CompleteLoneWord(gaps: seq<string>, ws: seq<string>, line: string, pos: nat)
    requires Layout(gaps, ws) && pos <= |line| && line[..pos] == Interleave(gaps, ws)
    requires |ws| == 1 && !EndsWithSpace(gaps[1])
    ensures Complete(line, pos) == Candidates(0, CommandCompletions(CommandLower(ws[0])))
  {
    WordsOfLayout(gaps, ws);
    LoneWordEnd(gaps, ws);
  }

  /** Past the first word, only the command decides. */
  lemma CompleteAfterWords(gaps: seq<string>, ws: seq<string>, line: string, pos: nat)
    requires Layout(gaps, ws) && pos <= |line| && line[..pos] == Interleave(gaps, ws)
    requires |ws| > 1 || (|ws| == 1 && EndsWithSpace(gaps[1]))
    ensures Complete(line, pos)
            == if CommandLower(ws[0]) in FileCommands then Filenames(line, pos) else Candidates(pos, [])
  {
    WordsOfLayout(gaps, ws);
    if |ws| == 1 {
      LoneWordEnd(gaps, ws);
    }
  }

  /** After a lone word, the typed text ends with a space exactly when the
      gap after the word does. */
  lemma LoneWordEnd(gaps: seq<string>, ws: seq<string>)
    requires Layout(gaps, ws) && |ws| == 1
    ensures EndsWithSpace(Interleave(gaps, ws)) <==> EndsWithSpace(gaps[1])
  {
    var typed := Interleave(gaps, ws);
    assert Interleave(gaps[1..], ws[1..]) == gaps[1];
    assert typed == gaps[0] + ws[0] + gaps[1];
    if |gaps[1]| == 0 {
      assert typed[|typed| - 1] == ws[0][|ws[0]| - 1];
    } else {
      assert typed[|typed| - 1] == gaps[1][|gaps[1]| - 1];
    }
  }

  /** A lone word followed by whitespace other than a trailing space is
      still the first word being typed, and completes as a command name. */
  lemma LoneWordCompletes(w: string, g: string)
    requires IsWord(w) && Blank(g) && !EndsWithSpace(g)
    ensures Complete(w + g, |w + g|) == Candidates(0, CommandCompletions(CommandLower(w)))
  {
    var gaps, ws := ["", g], [w];
    assert Layout(gaps, ws);
    assert Interleave(gaps[1..], ws[1..]) == g;
    assert Interleave(gaps, ws) == w + g == (w + g)[..|w + g|];
    CompleteLoneWord(gaps, ws, w + g, |w + g|);
  }

  /** The no-break space U+00A0 is whitespace to `split_whitespace`: "add"
      followed by it is still the first word being typed, and offers "add". */
  lemma NoBreakSpaceSeparates(line: string)
    requires line == "add\U{00A0}"
    ensures Complete(line, 4) == Candidates(0, CommandCompletions(CommandLower(line[..3])))
    ensures CommandLower(line[..3]) == "add" && AsPair(CommandLower(line[..3])) in Complete(line, 4).pairs
  {
    NoBreakSpaceParts(line);
    LiteralCompletion(CommandCompletions(CommandLower(line[..3])), CommandLower(line[..3]));
    LoneWordCompletes(line[..3], line[3..]);
  }

  lemma NoBreakSpaceParts(line: string)
    requires line == "add\U{00A0}"
    ensures IsWord(line[..3]) && Blank(line[3..]) && !EndsWithSpace(line[3..])
    ensures line[..3] + line[3..] == line && |line| == 4
    ensures CommandLower(line[..3]) == "add" && CommandLower(line[..3]) in AllCommands
  {
    assert forall i :: 0 <= i < 3 ==> line[i] in "add";
    assert line[3..] == ['\U{00A0}'];
  }

  /** The Kelvin sign lowercases to 'k', so "lin" followed by it completes
      as "link" does. */
  lemma KelvinCompletes(line: string)
    requires line == "lin" + [KelvinSign]
    ensures Complete(line, 4) == Candidates(0, CommandCompletions(CommandLower(line)))
    ensures CommandLower(line) == "link" && AsPair(CommandLower(line)) in Complete(line, 4).pairs
  {
    KelvinParts(line);
    LiteralCompletion(CommandCompletions(CommandLower(line)), CommandLower(line));
    LoneWordCompletes(line, "");
  }

  lemma KelvinParts(line: string)
    requires line == "lin" + [KelvinSign]
    ensures IsWord(line) && line + "" == line && |line| == 4
    ensures CommandLower(line) == "link" && CommandLower(line) in AllCommands
  {
    assert forall i :: 0 <= i < |line| ==> line[i] in "lin" + [KelvinSign];
  }

  /** A command name completes to itself. */
  lemma LiteralCompletion(pairs: seq<Pair>, c: string)
    requires c in AllCommands && pairs == CommandCompletions(c)
    ensures AsPair(c) in pairs
  {
    assert StartsWith(c, c);
  }

  /** A word typed at the start of the line, with the cursor right after
      it, is completed by the commands it begins, whatever its case. */
  lemma CompleteFirstWord(line: string)
    requires |line| > 0 && forall i :: 0 <= i < |line| ==> !IsWhitespace(line[i])
    ensures Complete(line, |line|) == Candidates(0, CommandCompletions(CommandLower(line)))
  {
    assert line[..|line|] == line;
    assert WordLength(line) == |line|;
    assert Words(line) == [line] + Words(line[|line|..]);
  }

  /** After a space, a command that takes a path hands over to file-name
      completion, and any other command gets nothing at the cursor. */
  lemma CompleteAfterCommand(cmd: string, rest: string)
    requires |cmd| > 0 && forall i :: 0 <= i < |cmd| ==> !IsWhitespace(cmd[i])
    ensures var line := cmd + " " + rest;
            var pos := |cmd| + 1;
            && (CommandLower(cmd) in FileCommands ==> Complete(line, pos) == Filenames(line, pos))
            && (CommandLower(cmd) !in FileCommands ==> Complete(line, pos) == Candidates(pos, []))
  {
    var line := cmd + " " + rest;
    var upto := line[..|cmd| + 1];
    assert upto == cmd + " ";
    assert WordLength(upto) == |cmd| by {
      WordLengthOf(cmd, " ");
    }
    assert upto[..|cmd|] == cmd && upto[|cmd|..] == " ";
    assert Words(" ") == Words(" "[1..]);
    assert Words(upto) == [cmd];
    assert EndsWithSpace(upto);
    assert Complete(line, |cmd| + 1)
        == if CommandLower(cmd) in FileCommands then Filenames(line, |cmd| + 1) else Candidates(|cmd| + 1, []);
  }

  /** A run of non-whitespace followed by whitespace is one word long. */
  lemma {:induction false} WordLengthOf(w: string, tail: string)
    requires forall i :: 0 <= i < |w| ==> !IsWhitespace(w[i])
    requires |tail| > 0 && IsWhitespace(tail[0])
    ensures WordLength(w + tail) == |w|
  {
    if |w| > 0 {
      assert (w + tail)[1..] == w[1..] + tail;
      WordLengthOf(w[1..], tail);
    }
  }
}
