/** The flashcard deck file format: how one line of a deck file becomes a
    card, how the file's text is cut into lines the way `getline` cuts it, and
    what the whole file parses to. Every character stands for one byte of the
    file; no encoding is interpreted. */
module DeckFormat {

  datatype Option<T> = None | Some(value: T)

  /** A question/answer pair; both sides may be empty. */
  datatype Card = Card(front: string, back: string)

  /** The position of the first `c` in `s`, as `strchr` finds it. */
  function IndexOf(s: string, c: char): (r: Option<nat>)
    ensures r.None? <==> c !in s
    ensures r.Some? ==> r.value < |s| && s[r.value] == c && c !in s[..r.value]
  {
    if s == [] then None
    else if s[0] == c then Some(0)
    else match IndexOf(s[1..], c)
      case None => None
      case Some(i) => Some(i + 1)
  }

  /** The part of `s` before the first `c`, or all of `s` when there is none. */
  function Before(s: string, c: char): (r: string)
    ensures c !in r
    ensures r <= s
    ensures |r| == |s| || s[|r|] == c
  {
    match IndexOf(s, c)
    case None => s
    case Some(i) => s[..i]
  }

  /** What the C string functions see of a buffer: everything up to the
      first NUL byte. */
  function CString(s: string): (r: string)
    ensures '\0' !in r
    ensures r <= s
    ensures |r| == |s| || s[|r|] == '\0'
    ensures '\0' !in s ==> r == s
  {
    Before(s, '\0')
  }

  /** A comment line starts with `#`. */
  predicate IsComment(line: string) {
    |line| > 0 && line[0] == '#'
  }

  /** A line yields a card exactly when it is not a comment and a tab occurs
      in it before any NUL byte. */
  predicate Accepted(line: string) {
    !IsComment(line) && '\t' in CString(line)
  }

  /** The card one line of a deck file yields, if any. The front is what
      precedes the first tab; the back is what follows it, up to the first
      newline. Nothing is trimmed. */
  function ParseLine(line: string): (r: Option<Card>)
    ensures r.Some? <==> Accepted(line)
  {
    if IsComment(line) then None
    else
      var visible := CString(line);
      match IndexOf(visible, '\t')
      case None => None
      case Some(tab) => Some(Card(visible[..tab], Before(visible[tab + 1..], '\n')))
  }

  /** The card of an accepted line takes apart what the C string functions
      see of it: the front holds no tab, the back no newline, and the line
      reads front, tab, back, then either its end or a newline. */
  lemma ParseLineFields(line: string)
    requires Accepted(line)
    ensures
      var v, f, b := CString(line), ParseLine(line).value.front, ParseLine(line).value.back;
      && '\t' !in f && '\n' !in b
      && |f| + 1 + |b| <= |v|
      && v[..|f|] == f && v[|f|] == '\t' && v[|f| + 1..|f| + 1 + |b|] == b
      && (|f| + 1 + |b| == |v| || v[|f| + 1 + |b|] == '\n')
  {
  }

  /** The cards of a sequence of lines: one per accepted line, in order. */
  function Parse(lines: seq<string>): (deck: seq<Card>)
    ensures |deck| <= |lines|
    ensures forall c | c in deck :: '\t' !in c.front && '\n' !in c.back
  {
    if lines == [] then []
    else match ParseLine(lines[0])
      case Some(card) => [card] + Parse(lines[1..])
      case None => Parse(lines[1..])
  }

  /** The cards a parsed line contributes: none or one. */
  function CardsOf(r: Option<Card>): (cs: seq<Card>)
    ensures |cs| == if r.Some? then 1 else 0
  {
    if r.Some? then [r.value] else []
  }

  /** The number of accepted lines, counted independently of the parser. */
  function CountAccepted(lines: seq<string>): nat {
    if lines == [] then 0
    else CountAccepted(lines[..|lines| - 1]) + (if Accepted(lines[|lines| - 1]) then 1 else 0)
  }

  // ---------------------------------------------------------------------
  // Cutting a file into lines, as repeated `getline` calls do.

  /** A line as `getline` returns it: non-empty, with a newline at most as
      its last character. */
  predicate IsLine(l: string) {
    l != [] && '\n' !in l[..|l| - 1]
  }

  predicate EndsWithNewline(l: string) {
    l != [] && l[|l| - 1] == '\n'
  }

  /** The length of the first line of `s`, newline included. */
  function NextLineLength(s: string): (n: nat)
    requires s != []
    ensures 0 < n <= |s|
    ensures IsLine(s[..n])
    ensures n < |s| ==> EndsWithNewline(s[..n])
  {
    if s[0] == '\n' || |s| == 1 then 1
    else
      var n := 1 + NextLineLength(s[1..]);
      assert s[..n] == [s[0]] + s[1..][..n - 1];
      n
  }

  function Flatten(ls: seq<string>): string {
    if ls == [] then [] else ls[0] + Flatten(ls[1..])
  }

  /** The lines successive `getline` calls return for a file holding `s`. */
  function Lines(s: string): (ls: seq<string>)
    ensures ls == [] <==> s == []
    ensures |ls| <= |s|
    decreases |s|
  {
    if s == [] then []
    else
      var n := NextLineLength(s);
      [s[..n]] + Lines(s[n..])
  }

  /** The lines of a text, put back together, are the text; each is a line
      as `getline` returns it, and all but the last end with a newline. */
  lemma {:induction false} LinesShape(s: string)
    ensures Flatten(Lines(s)) == s
    ensures forall i | 0 <= i < |Lines(s)| :: IsLine(Lines(s)[i])
    ensures forall i | 0 <= i < |Lines(s)| - 1 :: EndsWithNewline(Lines(s)[i])
    decreases |s|
  {
    if s != [] {
      var n := NextLineLength(s);
      var later := Lines(s[n..]);
      LinesShape(s[n..]);
      var r := [s[..n]] + later;
      assert Lines(s) == r;
      assert r[0] == s[..n] && r[1..] == later;
      assert forall i | 1 <= i < |r| :: r[i] == later[i - 1];
      assert |r| > 1 ==> n < |s|;
      assert s == s[..n] + s[n..];
    }
  }

  // ---------------------------------------------------------------------
  // Properties of the parser.

  lemma {:induction false} ParseAppend(a: seq<string>, b: seq<string>)
    ensures Parse(a + b) == Parse(a) + Parse(b)
  {
    if a != [] {
      assert (a + b)[0] == a[0];
      assert (a + b)[1..] == a[1..] + b;
      ParseAppend(a[1..], b);
    } else {
      assert a + b == b;
    }
  }

  /** Reading one more line appends that line's card, if it has one, to
      the cards of the lines read before it. */
  lemma ParseStep(lines: seq<string>, i: nat)
    requires i < |lines|
    ensures Parse(lines[..i + 1]) == Parse(lines[..i]) + CardsOf(ParseLine(lines[i]))
  {
    assert lines[..i + 1] == lines[..i] + [lines[i]];
    ParseAppend(lines[..i], [lines[i]]);
    assert [lines[i]][1..] == [];
  }

  /** The deck has one card per line that is not a comment and holds a tab. */
  lemma {:induction false} ParseLength(lines: seq<string>)
    ensures |Parse(lines)| == CountAccepted(lines)
  {
    if lines != [] {
      var init, last := lines[..|lines| - 1], lines[|lines| - 1];
      assert lines == init + [last];
      ParseAppend(init, [last]);
      ParseLength(init);
      assert [last][1..] == [];
    }
  }

  /** The card of the accepted line `i` sits at the index given by the
      number of accepted lines before it: cards keep file order. */
  lemma CardPosition(lines: seq<string>, i: nat)
    requires i < |lines| && Accepted(lines[i])
    ensures CountAccepted(lines[..i]) < |Parse(lines)|
    ensures Parse(lines)[CountAccepted(lines[..i])] == ParseLine(lines[i]).value
  {
    assert lines == lines[..i] + lines[i..];
    ParseAppend(lines[..i], lines[i..]);
    ParseLength(lines[..i]);
  }

  /** Conversely, every card comes from an accepted line, the one with
      exactly as many accepted lines before it as cards precede the card. */
  lemma CardOrigin(lines: seq<string>, k: nat)
    requires k < |Parse(lines)|
    ensures exists i | 0 <= i < |lines| ::
      Accepted(lines[i]) && CountAccepted(lines[..i]) == k && Parse(lines)[k] == ParseLine(lines[i]).value
  {
    ParseLength(lines);
    var i := FindLine(lines, k);
    CardPosition(lines, i);
  }

  /** The index of the `k`-th accepted line, counting from zero. */
  lemma {:induction false} FindLine(lines: seq<string>, k: nat) returns (i: nat)
    requires k < CountAccepted(lines)
    ensures i < |lines| && Accepted(lines[i]) && CountAccepted(lines[..i]) == k
  {
    var last := |lines| - 1;
    var init := lines[..last];
    if k < CountAccepted(init) {
      i := FindLine(init, k);
      assert lines[..i] == init[..i];
    } else {
      i := last;
    }
  }

  // ---------------------------------------------------------------------
  // Round trips between cards and lines.

  /** A card written back as a deck line, without its newline. */
  function Format(c: Card): string {
    c.front + ['\t'] + c.back
  }

  /** A card that a deck file can hold: its front is no comment marker and
      holds no tab, and neither side holds a newline or a NUL byte. */
  predicate Writable(c: Card) {
    && !IsComment(c.front)
    && '\t' !in c.front && '\n' !in c.front && '\0' !in c.front
    && '\n' !in c.back && '\0' !in c.back
  }

  /** A line as `getline` returns it, with no NUL byte and with a card on it,
      is the card's front, a tab and its back, followed by the newline the
      line ended with. */
  lemma LineRoundTrip(line: string)
    requires IsLine(line) && '\0' !in line && Accepted(line)
    ensures ParseLine(line).Some?
    ensures EndsWithNewline(line) ==> Format(ParseLine(line).value) + ['\n'] == line
    ensures !EndsWithNewline(line) ==> Format(ParseLine(line).value) == line
  {
    var text := line[..|line| - 1];
    assert line == text + [line[|line| - 1]];
    if EndsWithNewline(line) {
      assert text != [] ==> text[0] == line[0];
      var c := SplitAtTab(text);
      CardRoundTrip(c);
    } else {
      var c := SplitAtTab(line);
      FormatParse(c);
    }
  }

  /** The text of a line, newline removed, taken apart at its first tab,
      is a writable card. */
  lemma SplitAtTab(text: string) returns (c: Card)
    requires '\n' !in text && '\0' !in text && '\t' in text && !IsComment(text)
    ensures Writable(c) && Format(c) == text
  {
    var tab := IndexOf(text, '\t').value;
    c := Card(text[..tab], text[tab + 1..]);
    assert text == text[..tab] + [text[tab]] + text[tab + 1..];
    assert c.front != [] ==> c.front[0] == text[0];
  }

  /** `strchr` finds the first occurrence. A helper of the round-trip
      proofs, which know where the first tab is. */
  lemma {:induction false} IndexOfFirst(s: string, c: char, i: nat)
    requires i < |s| && s[i] == c && c !in s[..i]
    ensures IndexOf(s, c) == Some(i)
  {
    if i > 0 {
      assert s[1..][..i - 1] == s[..i][1..];
      IndexOfFirst(s[1..], c, i - 1);
    }
  }

  /** How the parser reads a line with no NUL byte and no comment marker
      whose first tab is at `tab`. A helper of the round-trip proofs. */
  lemma ParseLineAt(line: string, tab: nat)
    requires '\0' !in line && !IsComment(line)
    requires tab < |line| && line[tab] == '\t' && '\t' !in line[..tab]
    ensures ParseLine(line) == Some(Card(line[..tab], Before(line[tab + 1..], '\n')))
  {
    IndexOfFirst(line, '\t', tab);
  }

  /** A writable card written as a final line without a newline reads back
      as itself. */
  lemma FormatParse(c: Card)
    requires Writable(c)
    ensures ParseLine(Format(c)) == Some(c)
  {
    var line, tab := Format(c), |c.front|;
    assert line[..tab] == c.front;
    assert line[tab + 1..] == c.back;
    assert line[0] == if c.front == [] then '\t' else c.front[0];
    ParseLineAt(line, tab);
  }

  /** A writable card written as a newline-terminated line reads back as
      itself. */
  lemma CardRoundTrip(c: Card)
    requires Writable(c)
    ensures ParseLine(Format(c) + ['\n']) == Some(c)
  {
    var line, tab := Format(c) + ['\n'], |c.front|;
    assert line[..tab] == c.front;
    assert line[tab + 1..] == c.back + ['\n'];
    assert line[0] == if c.front == [] then '\t' else c.front[0];
    ParseLineAt(line, tab);
    IndexOfFirst(c.back + ['\n'], '\n', |c.back|);
  }

  /** A deck written out one line per card. */
  function Serialize(deck: seq<Card>): string {
    if deck == [] then [] else Format(deck[0]) + ['\n'] + Serialize(deck[1..])
  }

  /** Writing a deck of writable cards to a file and loading it gives the
      same deck back. */
  lemma {:induction false} DeckRoundTrip(deck: seq<Card>)
    requires forall c | c in deck :: Writable(c)
    ensures Parse(Lines(Serialize(deck))) == deck
  {
    if deck != [] {
      var c := deck[0];
      assert deck == [c] + deck[1..];
      assert c in deck;
      var line, rest := Format(c) + ['\n'], Serialize(deck[1..]);
      FormattedLine(c);
      FirstLine(line, rest);
      CardRoundTrip(c);
      var later := Lines(rest);
      assert ([line] + later)[0] == line && ([line] + later)[1..] == later;
      assert forall d | d in deck[1..] :: d in deck;
      DeckRoundTrip(deck[1..]);
    }
  }

  /** A writable card written with its newline is one line as `getline`
      returns it. */
  lemma FormattedLine(c: Card)
    requires Writable(c)
    ensures IsLine(Format(c) + ['\n']) && EndsWithNewline(Format(c) + ['\n'])
  {
    var line := Format(c) + ['\n'];
    assert line[..|line| - 1] == Format(c);
  }

  /** `getline` stops at the first newline. */
  lemma {:induction false} NextLineLengthOf(line: string, rest: string)
    requires IsLine(line) && EndsWithNewline(line)
    ensures NextLineLength(line + rest) == |line|
  {
    var s := line + rest;
    if |line| > 1 {
      assert line[0] == line[..|line| - 1][0];
      assert s[1..] == line[1..] + rest;
      assert line[1..][..|line| - 2] == line[..|line| - 1][1..];
      NextLineLengthOf(line[1..], rest);
    }
  }

  /** `getline` returns a newline-terminated line on its own. */
  lemma FirstLine(line: string, rest: string)
    requires IsLine(line) && EndsWithNewline(line)
    ensures Lines(line + rest) == [line] + Lines(rest)
  {
    var s := line + rest;
    NextLineLengthOf(line, rest);
    assert s[..|line|] == line;
    assert s[|line|..] == rest;
  }

  // ---------------------------------------------------------------------
  // Worked examples of the format.

  /** An empty front is accepted: a line that starts with the tab. */
  lemma EmptyFront(back: string)
    requires '\n' !in back && '\0' !in back
    ensures ParseLine(['\t'] + back + ['\n']) == Some(Card("", back))
  {
    CardRoundTrip(Card("", back));
    assert ['\t'] + back + ['\n'] == Format(Card("", back)) + ['\n'];
  }

  /** An empty back is accepted: a line whose tab is followed by the newline. */
  lemma EmptyBack(front: string)
    requires Writable(Card(front, ""))
    ensures ParseLine(front + ['\t', '\n']) == Some(Card(front, ""))
  {
    CardRoundTrip(Card(front, ""));
    assert front + ['\t', '\n'] == Format(Card(front, "")) + ['\n'];
  }

  /** A file made of comment lines only yields no card, whatever the
      comments hold. */
  lemma {:induction false} CommentsOnly(lines: seq<string>)
    requires forall i | 0 <= i < |lines| :: IsComment(lines[i])
    ensures Parse(lines) == []
  {
    if lines != [] {
      assert IsComment(lines[0]);
      CommentsOnly(lines[1..]);
    }
  }
}
