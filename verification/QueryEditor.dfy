/**
 The line editor of the database console, with its command history.

 The source keeps the line in one string and the cursor as a byte offset into it. Some keys use the
 offset as a character index or move it by single bytes, so on text outside ASCII a key can panic; here
 a key that panics has no next state. On ASCII text no key panics and the line behaves like the text on
 the two sides of a cursor.
 */
module QueryEditor {
  import opened Prelude
  import opened Text
  import Utf8

  const HISTORY_MAX_SIZE := 250

  datatype Key =
    | Enter | Backspace | Escape | Up | Down | Left | Right | Home | End | Delete
    | KillToEnd | KillLine | KillWord | Cancel | Typed(c: char) | Paste(text: string) | Ignored

  /** Keys that only change the line, in the sense of moving the cursor or editing the text. */
  predicate IsInline(k: Key) {
    !k.Enter? && !k.Up? && !k.Down?
  }

  /** The key that a keysym stands for. */
  function DecodeKey(keysym: uint32): Key {
    if keysym == 0xFF0D then Enter
    else if keysym == 0xFF08 then Backspace
    else if keysym == 0xFF1B then Escape
    else if keysym == 0xFF52 then Up
    else if keysym == 0xFF54 then Down
    else if keysym == 0xFF51 then Left
    else if keysym == 0xFF53 then Right
    else if keysym == 0xFF50 || keysym == 0x0001 then Home
    else if keysym == 0xFF57 || keysym == 0x0005 then End
    else if keysym == 0xFFFF then Delete
    else if keysym == 0x000B then KillToEnd
    else if keysym == 0x0015 then KillLine
    else if keysym == 0x0017 then KillWord
    else if keysym == 0x0003 then Cancel
    else if 0x20 <= keysym < 0x7F then Typed(keysym as char)
    else Ignored
  }

  /** The cursor is a byte offset. */
  datatype State = State(input: string, cursor: nat, history: seq<string>, index: Option<nat>, temp: string)

  const EMPTY := State("", 0, [], None, "")

  // ------------------------------------------------------------------ editing at byte offsets

  /** `String::insert_str`, which panics when the offset is inside a character. */
  function InsertAt(line: string, offset: nat, text: string): Option<string> {
    match Utf8.CharIndex(line, offset)
    case None => None
    case Some(i) => Some(line[..i] + text + line[i..])
  }

  /** `String::remove`, of the character that starts at the offset. */
  function RemoveAt(line: string, offset: nat): Option<string> {
    match Utf8.CharIndex(line, offset)
    case None => None
    case Some(i) => if i < |line| then Some(line[..i] + line[i + 1..]) else None
  }

  /** `String::truncate` within the line. */
  function TruncateAt(line: string, offset: nat): Option<string> {
    match Utf8.CharIndex(line, offset)
    case None => None
    case Some(i) => Some(line[..i])
  }

  /** `String::drain`. */
  function Drain(line: string, from: nat, to: nat): Option<string> {
    match (Utf8.CharIndex(line, from), Utf8.CharIndex(line, to))
    case (Some(i), Some(j)) => if i <= j then Some(line[..i] + line[j..]) else None
    case _ => None
  }

  // ------------------------------------------------------------------ one key

  /** Back over whitespace, stopping at the first character. */
  function SkipSpaces(s: string, pos: nat): nat
    requires pos < |s|
  {
    if pos > 0 && IsWhitespace(s[pos]) then SkipSpaces(s, pos - 1) else pos
  }

  /** Back to the start of a word. */
  function WordStart(s: string, pos: nat): (r: nat)
    requires pos <= |s|
    ensures r <= pos
  {
    if pos > 0 && !IsWhitespace(s[pos - 1]) then WordStart(s, pos - 1) else pos
  }

  /** The character index that Ctrl+W computes; it panics when the offset before the cursor is no
      index of a character. */
  function KillIndex(line: string, cursor: nat): (p: Option<nat>)
    requires cursor > 0
    ensures p.Some? ==> p.value < cursor
  {
    if cursor - 1 >= |line| then None
    else
      SkipSpacesBound(line, cursor - 1);
      Some(WordStart(line, SkipSpaces(line, cursor - 1)))
  }

  lemma SkipSpacesBound(s: string, pos: nat)
    ensures pos < |s| ==> SkipSpaces(s, pos) <= pos
  {
  }

  predicate CursorOk(s: State) {
    s.cursor <= Utf8.Len(s.input)
  }

  function Remember(s: State, command: string): State {
    if Trim(command) == "" then s
    else if s.history != [] && s.history[|s.history| - 1] == command then s
    else
      var h := s.history + [command];
      s.(history := if |h| > HISTORY_MAX_SIZE then h[1..] else h, index := None, temp := "")
  }

  function Load(s: State, line: string): State {
    s.(input := line, cursor := Utf8.Len(line))
  }

  function Previous(s: State): State
    requires s.index.Some? ==> s.index.value < |s.history|
  {
    if s.history == [] then s
    else
      match s.index
      case None =>
        var n := |s.history| - 1;
        Load(s.(temp := s.input, index := Some(n)), s.history[n])
      case Some(i) =>
        if i > 0 then Load(s.(index := Some(i - 1)), s.history[i - 1]) else s
  }

  function Next(s: State): State
    requires s.index.Some? ==> s.index.value < |s.history|
  {
    match s.index
    case None => s
    case Some(i) =>
      if i < |s.history| - 1 then Load(s.(index := Some(i + 1)), s.history[i + 1])
      else Load(s.(index := None, temp := ""), s.temp)
  }

  predicate Valid(s: State) {
    CursorOk(s) && (s.index.Some? ==> s.index.value < |s.history|)
  }

  function Submit(s: State): State {
    var query := Trim(s.input);
    var cleared := Load(s, "");
    if query == "" then cleared else Remember(cleared, query)
  }

  function DeleteBefore(s: State): Option<State> {
    if s.cursor > 0 then Edited(s, RemoveAt(s.input, s.cursor - 1), s.cursor - 1) else Some(s)
  }

  function DeleteAt(s: State): Option<State> {
    if s.cursor < Utf8.Len(s.input) then Edited(s, RemoveAt(s.input, s.cursor), s.cursor) else Some(s)
  }

  function CutTail(s: State): Option<State> {
    if s.cursor < Utf8.Len(s.input) then Edited(s, TruncateAt(s.input, s.cursor), s.cursor) else Some(s)
  }

  function CutWord(s: State): Option<State> {
    if s.cursor == 0 then Some(s)
    else
      match KillIndex(s.input, s.cursor)
      case None => None
      case Some(p) => Edited(s, Drain(s.input, p, s.cursor), p)
  }

  function Insert(s: State, text: string, width: nat): Option<State> {
    Edited(s, InsertAt(s.input, s.cursor, text), s.cursor + width)
  }

  function ToLeft(s: State): State {
    if s.cursor > 0 then s.(cursor := s.cursor - 1) else s
  }

  function ToRight(s: State): State {
    if s.cursor < Utf8.Len(s.input) then s.(cursor := s.cursor + 1) else s
  }

  /** The state after a key, or none when the key panics. */
  function Step(s: State, k: Key): Option<State>
    requires Valid(s)
  {
    match k
    case Enter => Some(Submit(s))
    case Escape | Cancel | KillLine => Some(Load(s, ""))
    case Up => Some(Previous(s))
    case Down => Some(Next(s))
    case Backspace => DeleteBefore(s)
    case Delete => DeleteAt(s)
    case Left => Some(ToLeft(s))
    case Right => Some(ToRight(s))
    case Home => Some(s.(cursor := 0))
    case End => Some(s.(cursor := Utf8.Len(s.input)))
    case KillToEnd => CutTail(s)
    case KillWord => CutWord(s)
    case Typed(c) => Insert(s, [c], 1)
    case Paste(text) => Insert(s, text, Utf8.Len(text))
    case Ignored => Some(s)
  }

  function Edited(s: State, line: Option<string>, cursor: nat): Option<State> {
    if line.Some? then Some(s.(input := line.value, cursor := cursor)) else None
  }

  /** The query that a key hands out for execution. */
  function Submitted(s: State, k: Key): Option<string> {
    if k.Enter? && Trim(s.input) != "" then Some(Trim(s.input)) else None
  }

  // ------------------------------------------------------------------ the editor object

  class QueryEditor {
    var inputBuffer: string
    var cursorPosition: nat
    var commandHistory: seq<string>
    var historyIndex: Option<nat>
    var tempBuffer: string

    ghost function Now(): State
      reads this
    {
      State(inputBuffer, cursorPosition, commandHistory, historyIndex, tempBuffer)
    }

    constructor ()
      ensures Now() == EMPTY
    {
      inputBuffer, cursorPosition, commandHistory, historyIndex, tempBuffer := "", 0, [], None, "";
    }

    /** `ok` is false when the key panics. */
    method ProcessKey(keysym: uint32) returns (ok: bool, query: Option<string>)
      requires Valid(Now())
      modifies this
      ensures Becomes(ok, old(Now()), DecodeKey(keysym), Now())
      ensures query == Submitted(old(Now()), DecodeKey(keysym))
    {
      ok, query := true, None;
      match DecodeKey(keysym) {
        case Enter =>
          var q := Trim(inputBuffer);
          inputBuffer, cursorPosition := "", 0;
          if q != "" {
            AddToHistory(q);
            query := Some(q);
          }
        case Backspace => ok := DeleteCharBeforeCursor();
        case Escape => inputBuffer, cursorPosition := "", 0;
        case Cancel => inputBuffer, cursorPosition := "", 0;
        case Up => HistoryPrevious();
        case Down => HistoryNext();
        case Left => if cursorPosition > 0 { cursorPosition := cursorPosition - 1; }
        case Right => if cursorPosition < Utf8.Len(inputBuffer) { cursorPosition := cursorPosition + 1; }
        case Home => cursorPosition := 0;
        case End => cursorPosition := Utf8.Len(inputBuffer);
        case Delete => ok := DeleteCharAtCursor();
        case KillToEnd => ok := KillToEndOfLine();
        case KillLine => inputBuffer, cursorPosition := "", 0;
        case KillWord => ok := KillPreviousWord();
        case Typed(c) => ok := InsertChar(c);
        case Paste(text) => ok := InsertText(text);
        case Ignored =>
      }
    }

    /** A printable character goes in at the cursor, which moves by one byte. */
    method InsertChar(c: char) returns (ok: bool)
      requires Valid(Now())
      modifies this`inputBuffer, this`cursorPosition
      ensures Becomes(ok, old(Now()), Typed(c), Now())
    {
      var line := InsertAt(inputBuffer, cursorPosition, [c]);
      if line.None? {
        return false;
      }
      inputBuffer, cursorPosition := line.value, cursorPosition + 1;
      return true;
    }

    /** Clipboard text goes in at the cursor, which moves by its bytes. */
    method InsertText(text: string) returns (ok: bool)
      requires Valid(Now())
      modifies this`inputBuffer, this`cursorPosition
      ensures Becomes(ok, old(Now()), Paste(text), Now())
    {
      var line := InsertAt(inputBuffer, cursorPosition, text);
      if line.None? {
        return false;
      }
      inputBuffer, cursorPosition := line.value, cursorPosition + Utf8.Len(text);
      return true;
    }

    method DeleteCharBeforeCursor() returns (ok: bool)
      requires Valid(Now())
      modifies this`inputBuffer, this`cursorPosition
      ensures Becomes(ok, old(Now()), Backspace, Now())
    {
      if cursorPosition > 0 {
        var line := RemoveAt(inputBuffer, cursorPosition - 1);
        if line.None? {
          return false;
        }
        inputBuffer, cursorPosition := line.value, cursorPosition - 1;
      }
      return true;
    }

    method DeleteCharAtCursor() returns (ok: bool)
      requires Valid(Now())
      modifies this`inputBuffer
      ensures Becomes(ok, old(Now()), Delete, Now())
    {
      if cursorPosition < Utf8.Len(inputBuffer) {
        var line := RemoveAt(inputBuffer, cursorPosition);
        if line.None? {
          return false;
        }
        inputBuffer := line.value;
      }
      return true;
    }

    method KillToEndOfLine() returns (ok: bool)
      requires Valid(Now())
      modifies this`inputBuffer
      ensures Becomes(ok, old(Now()), KillToEnd, Now())
    {
      if cursorPosition < Utf8.Len(inputBuffer) {
        var line := TruncateAt(inputBuffer, cursorPosition);
        if line.None? {
          return false;
        }
        inputBuffer := line.value;
      }
      return true;
    }

    /** The offset is used as an index into the characters of the line. */
    method KillPreviousWord() returns (ok: bool)
      requires Valid(Now())
      modifies this`inputBuffer, this`cursorPosition
      ensures Becomes(ok, old(Now()), KillWord, Now())
    {
      if cursorPosition > 0 {
        var pos := cursorPosition - 1;
        if pos >= |inputBuffer| {
          return false;
        }
        while pos > 0 && IsWhitespace(inputBuffer[pos])
          invariant 0 <= pos < cursorPosition && pos < |inputBuffer|
          invariant SkipSpaces(inputBuffer, pos) == SkipSpaces(inputBuffer, cursorPosition - 1)
        {
          pos := pos - 1;
        }
        while pos > 0 && !IsWhitespace(inputBuffer[pos - 1])
          invariant 0 <= pos < cursorPosition && pos < |inputBuffer|
          invariant Some(WordStart(inputBuffer, pos)) == KillIndex(inputBuffer, cursorPosition)
        {
          pos := pos - 1;
        }
        var line := Drain(inputBuffer, pos, cursorPosition);
        if line.None? {
          return false;
        }
        inputBuffer, cursorPosition := line.value, pos;
      }
      return true;
    }

    method HistoryPrevious()
      requires Valid(Now())
      modifies this
      ensures Becomes(true, old(Now()), Up, Now())
    {
      if commandHistory == [] {
        return;
      }
      if historyIndex.None? {
        tempBuffer := inputBuffer;
        historyIndex := Some(|commandHistory| - 1);
      } else if historyIndex.value > 0 {
        historyIndex := Some(historyIndex.value - 1);
      } else {
        return;
      }
      inputBuffer := commandHistory[historyIndex.value];
      cursorPosition := Utf8.Len(inputBuffer);
    }

    method HistoryNext()
      requires Valid(Now())
      modifies this
      ensures Becomes(true, old(Now()), Down, Now())
    {
      if historyIndex.Some? {
        var i := historyIndex.value;
        if i < |commandHistory| - 1 {
          historyIndex := Some(i + 1);
          inputBuffer := commandHistory[i + 1];
          cursorPosition := Utf8.Len(inputBuffer);
        } else {
          historyIndex := None;
          inputBuffer := tempBuffer;
          cursorPosition := Utf8.Len(inputBuffer);
          tempBuffer := "";
        }
      }
    }

    method AddToHistory(command: string)
      requires Valid(Now())
      modifies this`commandHistory, this`historyIndex, this`tempBuffer
      ensures Now() == Remember(old(Now()), command) && Valid(Now())
    {
      if Trim(command) == "" {
        return;
      }
      if commandHistory != [] && commandHistory[|commandHistory| - 1] == command {
        return;
      }
      commandHistory := commandHistory + [command];
      if |commandHistory| > HISTORY_MAX_SIZE {
        commandHistory := commandHistory[1..];
      }
      historyIndex := None;
      tempBuffer := "";
    }
  }

  /** The key led to the next state, or panicked where there is none. */
  predicate Becomes(ok: bool, before: State, k: Key, after: State)
    requires Valid(before)
  {
    if ok then Step(before, k) == Some(after) else Step(before, k) == None && after == before
  }

  // ------------------------------------------------------------------ the line as a zipper

  /** The text on the two sides of the cursor. */
  datatype Zipper = Zipper(before: string, after: string)

  /** The cursor stands between two characters. */
  predicate OnBoundary(s: State) {
    Utf8.CharIndex(s.input, s.cursor).Some?
  }

  function View(s: State): Zipper
    requires OnBoundary(s)
  {
    var i := Utf8.CharIndex(s.input, s.cursor).value;
    Zipper(s.input[..i], s.input[i..])
  }

  /** Back over the whitespace before the cursor, and then to the start of a word. */
  function KillPoint(before: string): (p: nat)
    requires before != ""
    ensures p < |before|
  {
    SkipSpacesBound(before, |before| - 1);
    WordStart(before, SkipSpaces(before, |before| - 1))
  }

  /** `before` is a kept part, a word and spaces: the kept part is empty or ends in whitespace, and
      it can only be kept when there is a word to remove. */
  ghost predicate SplitsAtWord(before: string, p: nat, q: nat) {
    && p <= q <= |before|
    && (forall i :: p <= i < q ==> !IsWhitespace(before[i]))
    && (forall i :: q <= i < |before| ==> IsWhitespace(before[i]))
    && (p == 0 || (p < q && IsWhitespace(before[p - 1])))
  }

  ghost predicate IsKillPoint(before: string, p: nat) {
    exists q :: SplitsAtWord(before, p, q)
  }

  lemma {:induction false} SkipSpacesSpec(s: string, pos: nat)
    requires pos < |s|
    ensures var r := SkipSpaces(s, pos);
            && r <= pos
            && (forall i :: r < i <= pos ==> IsWhitespace(s[i]))
            && (r == 0 || !IsWhitespace(s[r]))
  {
    if pos > 0 && IsWhitespace(s[pos]) {
      SkipSpacesSpec(s, pos - 1);
    }
  }

  lemma {:induction false} WordStartSpec(s: string, pos: nat)
    requires pos <= |s|
    ensures var r := WordStart(s, pos);
            && r <= pos
            && (forall i :: r <= i < pos ==> !IsWhitespace(s[i]))
            && (r == 0 || IsWhitespace(s[r - 1]))
  {
    if pos > 0 && !IsWhitespace(s[pos - 1]) {
      WordStartSpec(s, pos - 1);
    }
  }

  /** Ctrl+W removes exactly the spaces before the cursor and the whole word before them. */
  lemma KillPointExact(before: string, p: nat)
    requires before != ""
    ensures p == KillPoint(before) <==> IsKillPoint(before, p)
  {
    var n := |before|;
    var r := SkipSpaces(before, n - 1);
    var k := KillPoint(before);
    SkipSpacesSpec(before, n - 1);
    WordStartSpec(before, r);
    if IsWhitespace(before[r]) {
      assert k == 0;
      assert SplitsAtWord(before, 0, 0);
    } else {
      assert SplitsAtWord(before, k, r + 1);
    }
    if IsKillPoint(before, p) {
      var q: nat :| SplitsAtWord(before, p, q);
      var q0 := if IsWhitespace(before[r]) then 0 else r + 1;
      assert q > p ==> !IsWhitespace(before[q - 1]);
      assert q0 > k ==> !IsWhitespace(before[q0 - 1]);
      assert p == k;
    }
  }

  /** What a key does to the two sides of the cursor; the history keys are not edits. */
  ghost function ZipStep(z: Zipper, k: Key): Zipper
    requires !k.Up? && !k.Down?
  {
    var b, n := z.before, |z.before|;
    match k
    case Enter | Escape | Cancel | KillLine => Zipper("", "")
    case Backspace => if n > 0 then Zipper(b[..n - 1], z.after) else z
    case Delete => if z.after != "" then Zipper(b, z.after[1..]) else z
    case Left => if n > 0 then Zipper(b[..n - 1], [b[n - 1]] + z.after) else z
    case Right => if z.after != "" then Zipper(b + [z.after[0]], z.after[1..]) else z
    case Home => Zipper("", b + z.after)
    case End => Zipper(b + z.after, "")
    case KillToEnd => Zipper(b, "")
    case KillWord =>
      if n > 0 then
        KillPointExact(b, KillPoint(b));
        var p: nat :| p <= n && IsKillPoint(b, p);
        Zipper(b[..p], z.after)
      else z
    case Typed(c) => Zipper(b + [c], z.after)
    case Paste(text) => Zipper(b + text, z.after)
    case Ignored => z
  }

  // ------------------------------------------------------------------ ASCII text

  predicate AllAscii(s: State) {
    IsAscii(s.input) && IsAscii(s.temp) && forall h <- s.history :: IsAscii(h)
  }

  /** The keys that keep a line ASCII: all but pasting other text. */
  predicate AsciiKey(k: Key) {
    (k.Typed? ==> IsAsciiChar(k.c)) && (k.Paste? ==> IsAscii(k.text))
  }

  lemma AsciiView(s: State)
    requires Valid(s) && IsAscii(s.input)
    ensures s.cursor <= |s.input| == Utf8.Len(s.input)
    ensures OnBoundary(s) && View(s) == Zipper(s.input[..s.cursor], s.input[s.cursor..])
  {
    Utf8.AsciiLen(s.input);
    Utf8.AsciiOffsets(s.input, s.cursor);
  }

  lemma {:induction false} SkipSpacesPrefix(line: string, n: nat, pos: nat)
    requires pos < n <= |line|
    ensures SkipSpaces(line, pos) == SkipSpaces(line[..n], pos)
  {
    if pos > 0 && IsWhitespace(line[pos]) {
      SkipSpacesPrefix(line, n, pos - 1);
    }
  }

  lemma {:induction false} WordStartPrefix(line: string, n: nat, pos: nat)
    requires pos <= n <= |line|
    ensures WordStart(line, pos) == WordStart(line[..n], pos)
  {
    if pos > 0 && !IsWhitespace(line[pos - 1]) {
      WordStartPrefix(line, n, pos - 1);
    }
  }

  lemma KillIndexIsKillPoint(line: string, n: nat)
    requires 0 < n <= |line|
    ensures KillIndex(line, n) == Some(KillPoint(line[..n]))
  {
    SkipSpacesPrefix(line, n, n - 1);
    SkipSpacesBound(line, n - 1);
    WordStartPrefix(line, n, SkipSpaces(line, n - 1));
  }

  lemma AsciiDrain(line: string, from: nat, to: nat)
    requires IsAscii(line) && from <= to <= |line|
    ensures Drain(line, from, to) == Some(line[..from] + line[to..]) && IsAscii(line[..from] + line[to..])
  {
    Utf8.AsciiOffsets(line, from);
    Utf8.AsciiOffsets(line, to);
  }

  lemma WordCut(s: State)
    requires Valid(s) && IsAscii(s.input) && 0 < s.cursor <= |s.input|
    ensures CutWord(s).Some? && IsAscii(CutWord(s).value.input)
    ensures var b := s.input[..s.cursor];
            IsSplit(CutWord(s).value, b[..KillPoint(b)], s.input[s.cursor..])
  {
    var b := s.input[..s.cursor];
    var p: nat := KillPoint(b);
    KillIndexIsKillPoint(s.input, s.cursor);
    AsciiDrain(s.input, p, s.cursor);
    assert s.input[..p] == b[..p];
    AsciiCut(b, p);
    Utf8.AsciiLen(b[..p]);
  }

  lemma KillWordRefines(s: State)
    requires Valid(s) && IsAscii(s.input)
    ensures OnBoundary(s) && Step(s, KillWord).Some? && OnBoundary(Step(s, KillWord).value)
    ensures IsAscii(Step(s, KillWord).value.input)
    ensures View(Step(s, KillWord).value) == ZipStep(View(s), KillWord)
  {
    AsciiView(s);
    if s.cursor > 0 {
      var b := s.input[..s.cursor];
      WordCut(s);
      ViewOf(CutWord(s).value, b[..KillPoint(b)], s.input[s.cursor..]);
      KillPointUnique(b, KillPoint(b));
    }
  }

  lemma KillPointUnique(b: string, p: nat)
    requires b != "" && p == KillPoint(b)
    ensures p <= |b| && IsKillPoint(b, p) && forall q: nat :: q <= |b| && IsKillPoint(b, q) ==> q == p
  {
    forall q: nat | q <= |b| && IsKillPoint(b, q) ensures q == p {
      KillPointExact(b, q);
    }
    KillPointExact(b, p);
  }

  /** The line of a state and its cursor, told by the text on the two sides. */
  predicate IsSplit(s: State, before: string, after: string) {
    s.input == before + after && s.cursor == Utf8.Len(before)
  }

  lemma ViewOf(s: State, before: string, after: string)
    requires IsSplit(s, before, after)
    ensures OnBoundary(s) && View(s) == Zipper(before, after)
  {
    assert s.input[..|before|] == before && s.input[|before|..] == after;
    Utf8.IndexBetween(before, after);
  }

  /** On ASCII text no key panics, the text stays ASCII, and offset and string behave like the text on
      the two sides of the cursor. */
  lemma EditorRefinesZipper(s: State, k: Key)
    requires Valid(s) && AllAscii(s) && AsciiKey(k)
    ensures Step(s, k).Some? && AllAscii(Step(s, k).value) && OnBoundary(s) && OnBoundary(Step(s, k).value)
    ensures !k.Up? && !k.Down? ==> View(Step(s, k).value) == ZipStep(View(s), k)
    ensures k.Up? || k.Down? ==> Step(s, k) == Some(s) || View(Step(s, k).value) == Zipper(Step(s, k).value.input, "")
  {
    if k.KillWord? {
      KillWordRefines(s);
    } else if k.Up? || k.Down? {
      HistoryKeyShows(s, k);
    } else {
      OneByteKeyRefines(s, k);
    }
  }

  lemma HistoryKeyShows(s: State, k: Key)
    requires Valid(s) && AllAscii(s) && (k.Up? || k.Down?)
    ensures Step(s, k).Some? && AllAscii(Step(s, k).value) && OnBoundary(s) && OnBoundary(Step(s, k).value)
    ensures Step(s, k) == Some(s) || View(Step(s, k).value) == Zipper(Step(s, k).value.input, "")
  {
    AsciiView(s);
    StepValid(s, k);
    AsciiView(Step(s, k).value);
  }

  lemma OneByteKeyRefines(s: State, k: Key)
    requires Valid(s) && AllAscii(s) && AsciiKey(k) && !k.Up? && !k.Down? && !k.KillWord?
    ensures OnBoundary(s) && Refines(s, k) && AllAscii(Step(s, k).value)
  {
    AsciiView(s);
    AsciiNeighbours(s, View(s), k);
    BoundaryKeyIff(s, k);
    AsciiKept(s, k);
  }

  lemma AsciiNeighbours(s: State, z: Zipper, k: Key)
    requires IsAscii(s.input) && AsciiKey(k) && s.input == z.before + z.after
    ensures OneByte(z, k)
  {
    assert z.before != "" ==> z.before[|z.before| - 1] == s.input[|z.before| - 1];
    assert z.after != "" ==> z.after[0] == s.input[|z.before|];
  }

  lemma AsciiCut(line: string, i: nat)
    ensures IsAscii(line) && i <= |line| ==> IsAscii(line[..i]) && IsAscii(line[i..])
  {
  }

  lemma AsciiJoin(a: string, b: string)
    ensures IsAscii(a) && IsAscii(b) ==> IsAscii(a + b)
  {
  }

  lemma AsciiRemoved(line: string, offset: nat)
    requires IsAscii(line) && RemoveAt(line, offset).Some?
    ensures IsAscii(RemoveAt(line, offset).value)
  {
    var i := Utf8.CharIndex(line, offset).value;
    AsciiCut(line, i);
    AsciiCut(line, i + 1);
    AsciiJoin(line[..i], line[i + 1..]);
  }

  lemma AsciiInserted(line: string, offset: nat, text: string)
    requires IsAscii(line) && IsAscii(text) && InsertAt(line, offset, text).Some?
    ensures IsAscii(InsertAt(line, offset, text).value)
  {
    var i := Utf8.CharIndex(line, offset).value;
    AsciiCut(line, i);
    AsciiJoin(line[..i], text);
    AsciiJoin(line[..i] + text, line[i..]);
  }

  lemma AsciiTrim(line: string)
    requires IsAscii(line)
    ensures IsAscii(Trim(line))
  {
    var i, j := TrimSplit(line);
    AsciiCut(line, j);
    AsciiCut(line[..j], i);
    assert line[..j][i..] == line[i..j];
  }

  /** All keys but Up, Down and Ctrl+W keep the text ASCII. */
  lemma AsciiKept(s: State, k: Key)
    requires Valid(s) && AllAscii(s) && AsciiKey(k) && !k.Up? && !k.Down? && !k.KillWord? && Step(s, k).Some?
    ensures AllAscii(Step(s, k).value)
  {
    match k
    case Enter => AsciiTrim(s.input);
    case Backspace => if s.cursor > 0 { AsciiRemoved(s.input, s.cursor - 1); }
    case Delete => if s.cursor < Utf8.Len(s.input) { AsciiRemoved(s.input, s.cursor); }
    case KillToEnd =>
      if s.cursor < Utf8.Len(s.input) { AsciiCut(s.input, Utf8.CharIndex(s.input, s.cursor).value); }
    case Typed(c) => AsciiInserted(s.input, s.cursor, [c]);
    case Paste(text) => AsciiInserted(s.input, s.cursor, text);
    case _ =>
  }

  /** The character that a key moves over is one byte long. */
  predicate OneByte(z: Zipper, k: Key)
  {
    match k
    case Left | Backspace => z.before == "" || IsAsciiChar(z.before[|z.before| - 1])
    case Right => z.after == "" || IsAsciiChar(z.after[0])
    case Typed(c) => IsAsciiChar(c)
    case _ => true
  }

  /** What Ctrl+W takes for the text before the cursor: as many characters as that has bytes. */
  function Reach(z: Zipper): Option<string> {
    var n, line := Utf8.Len(z.before), z.before + z.after;
    if n <= |line| then Some(line[..n]) else None
  }

  /** Counted in characters, the word found there starts where, counted in bytes, the word before the
      cursor does. */
  predicate FindsWord(z: Zipper) {
    z.before != "" ==>
      Reach(z).Some? && Reach(z).value != "" && KillPoint(Reach(z).value) == Utf8.Len(z.before[..KillPoint(z.before)])
  }

  predicate ActsAsMeant(z: Zipper, k: Key) {
    if k.KillWord? then FindsWord(z) else OneByte(z, k)
  }

  /** The key does to the text on the two sides of the cursor what it should. */
  ghost predicate Refines(s: State, k: Key)
    requires Valid(s) && OnBoundary(s) && !k.Up? && !k.Down?
  {
    Step(s, k).Some? && OnBoundary(Step(s, k).value) && View(Step(s, k).value) == ZipStep(View(s), k)
  }

  /** On any text, from between two characters, a key does to the text on the two sides of the cursor
      what it should exactly when the character that it moves over is one byte long; Ctrl+W, exactly when
      its count of characters finds the word at its byte offset. */
  lemma BoundaryKeyIff(s: State, k: Key)
    requires Valid(s) && OnBoundary(s) && !k.Up? && !k.Down?
    ensures ActsAsMeant(View(s), k) <==> Refines(s, k)
  {
    match k
    case Left => LeftKeyIff(s);
    case Right => RightKeyIff(s);
    case Home => HomeKey(s);
    case End => EndKey(s);
    case Backspace => BackspaceKeyIff(s);
    case Delete => DeleteKey(s);
    case KillToEnd => KillToEndKey(s);
    case Typed(c) => TypedIff(s, c);
    case Paste(text) => InsertedView(s, text);
    case Ignored =>
    case KillWord => KillWordIff(s);
    case _ => EnterView(s, k);
  }

  /** Counting characters, the kill is looked for in the reach, and out of it the key panics. */
  lemma KillIndexInReach(s: State)
    requires Valid(s) && OnBoundary(s) && s.cursor > 0
    ensures View(s).before != "" && IsSplit(s, View(s).before, View(s).after)
    ensures KillIndex(s.input, s.cursor).Some? <==> Reach(View(s)).Some?
    ensures Reach(View(s)).Some? ==>
              Reach(View(s)).value != "" && KillIndex(s.input, s.cursor) == Some(KillPoint(Reach(View(s)).value))
  {
    BoundaryLens(s);
    if s.cursor <= |s.input| {
      KillIndexIsKillPoint(s.input, s.cursor);
    }
  }

  /** `String::drain` up to the cursor, from the offset `p` before it. */
  lemma DrainToCursor(b: string, a: string, p: nat)
    requires p < Utf8.Len(b)
    ensures var line := b + a;
            match Utf8.CharIndex(line, p)
            case None => Drain(line, p, Utf8.Len(b)) == None
            case Some(i) => i < |b| && Drain(line, p, Utf8.Len(b)) == Some(b[..i] + a)
  {
    var line := b + a;
    Utf8.IndexBetween(b, a);
    if Utf8.CharIndex(line, p).Some? {
      var i := Utf8.CharIndex(line, p).value;
      Utf8.IndexLen(line, p);
      if i >= |b| {
        assert line[..i] == b + a[..i - |b|];
        Utf8.LenAppend(b, a[..i - |b|]);
      }
      assert line[..i] == b[..i] && line[|b|..] == a;
    }
  }

  /** Ctrl+W panics exactly when its count of characters leaves the line, or what it finds is no byte
      offset of a character. */
  lemma KillWordPanicsIff(s: State)
    requires Valid(s) && OnBoundary(s)
    ensures var z := View(s);
            Step(s, KillWord) == None
            <==> z.before != ""
                 && (Reach(z) == None
                     || (Reach(z).value != "" && Utf8.CharIndex(s.input, KillPoint(Reach(z).value)) == None))
  {
    BoundaryLens(s);
    if s.cursor > 0 {
      KillIndexInReach(s);
      if Reach(View(s)).Some? {
        DrainToCursor(View(s).before, View(s).after, KillPoint(Reach(View(s)).value));
      }
    }
  }

  lemma KillWordIff(s: State)
    requires Valid(s) && OnBoundary(s)
    ensures FindsWord(View(s)) <==> Refines(s, KillWord)
  {
    BoundaryLens(s);
    if s.cursor > 0 {
      KillIndexInReach(s);
      if Reach(View(s)).Some? {
        KilledInReach(s, View(s).before, View(s).after, KillPoint(Reach(View(s)).value));
      }
    }
  }

  lemma KilledInReach(s: State, b: string, a: string, p: nat)
    requires Valid(s) && b != "" && IsSplit(s, b, a) && OnBoundary(s) && View(s) == Zipper(b, a)
    requires KillIndex(s.input, s.cursor) == Some(p) && p < s.cursor
    ensures Refines(s, KillWord) <==> p == Utf8.Len(b[..KillPoint(b)])
  {
    var k := KillPoint(b);
    KillStep(b, a);
    DrainToCursor(b, a, p);
    if p == Utf8.Len(b[..k]) {
      KeptPart(b, a, k);
      ViewOf(CutWord(s).value, b[..k], a);
    } else if Refines(s, KillWord) {
      BoundaryLens(CutWord(s).value);
    }
  }

  lemma KeptPart(b: string, a: string, k: nat)
    requires k <= |b|
    ensures Utf8.CharIndex(b + a, Utf8.Len(b[..k])) == Some(k)
  {
    assert b + a == b[..k] + (b[k..] + a);
    Utf8.IndexBetween(b[..k], b[k..] + a);
  }

  lemma KillStep(b: string, a: string)
    requires b != ""
    ensures ZipStep(Zipper(b, a), KillWord) == Zipper(b[..KillPoint(b)], a)
  {
    KillPointUnique(b, KillPoint(b));
  }

  /** So at the end of a line Ctrl+W does what it should on ASCII and panics on every other line. */
  lemma KillAtEndIff(s: State)
    requires Valid(s) && OnBoundary(s) && View(s).after == ""
    ensures Refines(s, KillWord) <==> IsAscii(View(s).before)
    ensures Step(s, KillWord) == None <==> !IsAscii(View(s).before)
  {
    var z := View(s);
    KillWordIff(s);
    KillWordPanicsIff(s);
    Utf8.LenAtLeast(z.before);
    assert z.before + z.after == z.before;
    if IsAscii(z.before) && z.before != "" {
      assert z.before[..|z.before|] == z.before;
      Utf8.AsciiLen(z.before[..KillPoint(z.before)]);
    }
  }

  /** Away from its ends, the text on a side of the cursor has a character next to the cursor. */
  lemma LastChar(before: string) returns (b: string, c: char)
    requires before != ""
    ensures before == b + [c] && |b| == |before| - 1 && b == before[..|before| - 1] && c == before[|before| - 1]
  {
    b, c := before[..|before| - 1], before[|before| - 1];
  }

  lemma FirstChar(after: string) returns (c: char, a: string)
    requires after != ""
    ensures after == [c] + a && a == after[1..] && c == after[0]
  {
    c, a := after[0], after[1..];
  }

  lemma LeftKeyIff(s: State)
    requires Valid(s) && OnBoundary(s)
    ensures OneByte(View(s), Left) <==> Refines(s, Left)
  {
    var z := View(s);
    BoundaryLens(s);
    if z.before != "" {
      var b, c := LastChar(z.before);
      MovedBack(s, b, c, z.after);
    }
  }

  lemma MovedBack(s: State, b: string, c: char, after: string)
    requires Valid(s) && IsSplit(s, b + [c], after)
    ensures s.cursor > 0
    ensures IsAsciiChar(c) <==> OnBoundary(ToLeft(s))
    ensures IsAsciiChar(c) ==> View(ToLeft(s)) == Zipper(b, [c] + after)
  {
    Utf8.LenSnoc(b, c);
    AppendAssoc(b, [c], after);
    if IsAsciiChar(c) {
      ViewOf(ToLeft(s), b, [c] + after);
    } else {
      Utf8.NoIndexInside(b, c, after, Utf8.Width(c) - 1);
    }
  }

  lemma RightKeyIff(s: State)
    requires Valid(s) && OnBoundary(s)
    ensures OneByte(View(s), Right) <==> Refines(s, Right)
  {
    var z := View(s);
    BoundaryLens(s);
    if z.after != "" {
      var c, a := FirstChar(z.after);
      MovedOn(s, s.(cursor := s.cursor + 1), z.before, c, a);
    }
  }

  /** One byte on from between two parts, with `c` next. */
  lemma MovedOn(s: State, t: State, b: string, c: char, a: string)
    requires IsSplit(s, b, [c] + a) && t == s.(cursor := s.cursor + 1)
    ensures IsAsciiChar(c) <==> OnBoundary(t)
    ensures IsAsciiChar(c) ==> View(t) == Zipper(b + [c], a)
  {
    if IsAsciiChar(c) {
      Utf8.LenSnoc(b, c);
      AppendAssoc(b, [c], a);
      ViewOf(t, b + [c], a);
    } else {
      Utf8.NoIndexInside(b, c, a, 1);
    }
  }

  lemma HomeKey(s: State)
    requires Valid(s) && OnBoundary(s)
    ensures Refines(s, Home)
  {
    var z := View(s);
    BoundaryLens(s);
    assert s.input[..0] == "" && s.input[0..] == s.input;
    assert OnBoundary(s.(cursor := 0)) && View(s.(cursor := 0)) == Zipper("", s.input);
  }

  lemma EndKey(s: State)
    requires Valid(s) && OnBoundary(s)
    ensures Refines(s, End)
  {
    var z := View(s);
    BoundaryLens(s);
    assert z.before + z.after + "" == s.input;
    ViewOf(s.(cursor := Utf8.Len(s.input)), z.before + z.after, "");
  }

  /** `String::remove` between two parts. */
  lemma RemoveBetween(b: string, c: char, a: string)
    ensures RemoveAt(b + ([c] + a), Utf8.Len(b)) == Some(b + a)
  {
    var line := b + ([c] + a);
    Utf8.IndexBetween(b, [c] + a);
    assert line[..|b|] == b && line[|b| + 1..] == a;
  }

  lemma BackspaceKeyIff(s: State)
    requires Valid(s) && OnBoundary(s)
    ensures OneByte(View(s), Backspace) <==> Refines(s, Backspace)
  {
    var z := View(s);
    BoundaryLens(s);
    if z.before != "" {
      var b, c := LastChar(z.before);
      DeletedBefore(s, b, c, z.after);
      if IsAsciiChar(c) {
        ViewOf(DeleteBefore(s).value, b, z.after);
      }
    }
  }

  lemma DeletedBefore(s: State, b: string, c: char, after: string)
    requires IsSplit(s, b + [c], after)
    ensures DeleteBefore(s).Some? <==> IsAsciiChar(c)
    ensures DeleteBefore(s).Some? ==> IsSplit(DeleteBefore(s).value, b, after)
  {
    Utf8.LenSnoc(b, c);
    AppendAssoc(b, [c], after);
    if IsAsciiChar(c) {
      RemoveBetween(b, c, after);
    } else {
      Utf8.NoIndexInside(b, c, after, Utf8.Width(c) - 1);
    }
  }

  lemma DeleteKey(s: State)
    requires Valid(s) && OnBoundary(s)
    ensures Refines(s, Delete)
  {
    var z := View(s);
    BoundaryLens(s);
    if z.after != "" {
      var c, a := FirstChar(z.after);
      RemoveBetween(z.before, c, a);
      ViewOf(s.(input := z.before + a), z.before, a);
    }
  }

  lemma KillToEndKey(s: State)
    requires Valid(s) && OnBoundary(s)
    ensures Refines(s, KillToEnd)
  {
    var z := View(s);
    BoundaryLens(s);
    assert z.before + "" == z.before;
    ViewOf(s.(input := z.before), z.before, "");
  }

  lemma BoundaryLens(s: State)
    requires OnBoundary(s)
    ensures IsSplit(s, View(s).before, View(s).after)
    ensures Utf8.Len(s.input) == s.cursor + Utf8.Len(View(s).after)
    ensures View(s).before == "" <==> s.cursor == 0
    ensures View(s).after == "" <==> s.cursor == Utf8.Len(s.input)
  {
    Utf8.IndexLen(s.input, s.cursor);
    Utf8.LenSplit(s.input, Utf8.CharIndex(s.input, s.cursor).value);
  }

  lemma EnterView(s: State, k: Key)
    requires Valid(s) && (k.Enter? || k.Escape? || k.Cancel? || k.KillLine?)
    ensures Step(s, k).Some? && OnBoundary(Step(s, k).value) && View(Step(s, k).value) == Zipper("", "")
  {
    ViewOf(Step(s, k).value, "", "");
  }

  /** `String::insert_str` between two parts. */
  lemma InsertBetween(s: State, b: string, a: string, text: string, width: nat)
    requires IsSplit(s, b, a)
    ensures Insert(s, text, width) == Some(s.(input := b + text + a, cursor := s.cursor + width))
  {
    Utf8.IndexBetween(b, a);
    var line := b + a;
    assert line[..|b|] == b && line[|b|..] == a;
  }

  lemma InsertedView(s: State, text: string)
    requires Valid(s) && OnBoundary(s)
    ensures Refines(s, Paste(text))
  {
    var z := View(s);
    BoundaryLens(s);
    InsertBetween(s, z.before, z.after, text, Utf8.Len(text));
    Utf8.LenAppend(z.before, text);
    ViewOf(Insert(s, text, Utf8.Len(text)).value, z.before + text, z.after);
  }

  lemma TypedIff(s: State, c: char)
    requires Valid(s) && OnBoundary(s)
    ensures IsAsciiChar(c) <==> Refines(s, Typed(c))
  {
    var z := View(s);
    BoundaryLens(s);
    InsertBetween(s, z.before, z.after, [c], 1);
    AppendAssoc(z.before, [c], z.after);
    var t := Insert(s, [c], 1).value;
    MovedOn(t.(cursor := s.cursor), t, z.before, c, z.after);
  }

  // ------------------------------------------------------------------ runs

  ghost predicate HistoryOk(h: seq<string>) {
    && |h| <= HISTORY_MAX_SIZE
    && (forall i :: 0 <= i < |h| ==> Trim(h[i]) == h[i] && h[i] != "")
    && (forall i :: 0 < i < |h| ==> h[i - 1] != h[i])
  }

  ghost predicate Good(s: State) {
    Valid(s) && HistoryOk(s.history) && (s.index == None ==> s.temp == "")
  }

  /** The state after some keys, or none when one of them panics. */
  function Run(s: State, keys: seq<Key>): (r: Option<State>)
    requires Valid(s)
    ensures r.Some? ==> Valid(r.value)
  {
    if keys == [] then Some(s)
    else
      var k := keys[|keys| - 1];
      match Run(s, keys[..|keys| - 1])
      case None => None
      case Some(t) =>
        StepValid(t, k);
        Step(t, k)
  }

  lemma StepValid(s: State, k: Key)
    requires Valid(s)
    ensures Step(s, k).Some? ==> Valid(Step(s, k).value)
  {
    if Step(s, k).Some? {
      EditValid(s, k);
    }
  }

  lemma EditValid(s: State, k: Key)
    requires Valid(s) && Step(s, k).Some?
    ensures Valid(Step(s, k).value)
  {
    match k
    case Backspace => if s.cursor > 0 { RemovedLen(s.input, s.cursor - 1); }
    case Delete => if s.cursor < Utf8.Len(s.input) { RemovedLen(s.input, s.cursor); }
    case KillToEnd =>
      if s.cursor < Utf8.Len(s.input) {
        Utf8.IndexLen(s.input, s.cursor);
      }
    case KillWord => if s.cursor > 0 { DrainedLen(s.input, KillIndex(s.input, s.cursor).value, s.cursor); }
    case Typed(c) => InsertedLen(s.input, s.cursor, [c]);
    case Paste(text) => InsertedLen(s.input, s.cursor, text);
    case _ =>
  }

  lemma RemovedLen(line: string, offset: nat)
    requires RemoveAt(line, offset).Some?
    ensures offset <= Utf8.Len(RemoveAt(line, offset).value)
  {
    var i := Utf8.CharIndex(line, offset).value;
    Utf8.IndexLen(line, offset);
    Utf8.LenAppend(line[..i], line[i + 1..]);
  }

  lemma DrainedLen(line: string, from: nat, to: nat)
    requires Drain(line, from, to).Some?
    ensures from <= Utf8.Len(Drain(line, from, to).value)
  {
    var i, j := Utf8.CharIndex(line, from).value, Utf8.CharIndex(line, to).value;
    Utf8.IndexLen(line, from);
    Utf8.LenAppend(line[..i], line[j..]);
  }

  lemma InsertedLen(line: string, offset: nat, text: string)
    requires InsertAt(line, offset, text).Some?
    ensures offset + Utf8.Len(text) <= Utf8.Len(InsertAt(line, offset, text).value)
    ensures text != "" ==> Utf8.Len(text) >= 1
  {
    var i := Utf8.CharIndex(line, offset).value;
    Utf8.IndexLen(line, offset);
    Utf8.LenAppend(line[..i], text);
    Utf8.LenAppend(line[..i] + text, line[i..]);
  }

  lemma RememberOk(s: State, command: string)
    ensures HistoryOk(s.history) && Trim(command) == command ==> HistoryOk(Remember(s, command).history)
  {
  }

  lemma StepGood(s: State, k: Key)
    requires Good(s) && Step(s, k).Some?
    ensures Good(Step(s, k).value)
  {
    StepValid(s, k);
    if k.Enter? {
      TrimIsTight(s.input);
      TrimIsTight(Trim(s.input));
      RememberOk(Load(s, ""), Trim(s.input));
    } else {
      var t := Step(s, k).value;
      assert t.history == s.history && (t.index == None ==> t.temp == "");
    }
  }

  /** In every run, on any text, as long as no key panics: the cursor is in the line, the history has at
      most 250 entries, all trimmed and not blank, no entry follows an equal one, and a position in it
      is in range. */
  lemma {:induction false} RunGood(keys: seq<Key>)
    requires Run(EMPTY, keys).Some?
    ensures Good(Run(EMPTY, keys).value)
  {
    if keys != [] {
      RunGood(keys[..|keys| - 1]);
      StepGood(Run(EMPTY, keys[..|keys| - 1]).value, keys[|keys| - 1]);
    }
  }

  /** Enter leaves the history exactly when there was no navigation, or the line is a new command:
      an empty line or a repetition of the last command keeps the position. */
  lemma EnterLeavesHistoryIff(s: State)
    requires Good(s)
    ensures Step(s, Enter).value.index == None
            <==> s.index == None
                 || (Trim(s.input) != "" && (s.history == [] || s.history[|s.history| - 1] != Trim(s.input)))
  {
    TrimIsTight(s.input);
    TrimIsTight(Trim(s.input));
  }

  // ------------------------------------------------------------------ whole runs on ASCII text

  ghost function ZipRun(z: Zipper, keys: seq<Key>): Zipper
    requires NoHistoryKeys(keys)
  {
    if keys == [] then z else ZipStep(ZipRun(z, keys[..|keys| - 1]), keys[|keys| - 1])
  }

  predicate NoHistoryKeys(keys: seq<Key>) {
    forall k <- keys :: !k.Up? && !k.Down?
  }

  predicate AsciiKeys(keys: seq<Key>) {
    forall k <- keys :: AsciiKey(k)
  }

  /** A run on ASCII text never panics, and without history keys it is a run of the zipper. */
  lemma {:induction false} RunRefinesZipper(s: State, keys: seq<Key>)
    requires Valid(s) && AllAscii(s) && AsciiKeys(keys)
    ensures Run(s, keys).Some? && AllAscii(Run(s, keys).value) && OnBoundary(s) && OnBoundary(Run(s, keys).value)
    ensures NoHistoryKeys(keys) ==> View(Run(s, keys).value) == ZipRun(View(s), keys)
  {
    AsciiView(s);
    if keys != [] {
      var n := |keys| - 1;
      RunRefinesZipper(s, keys[..n]);
      EditorRefinesZipper(Run(s, keys[..n]).value, keys[n]);
    }
  }

  // ------------------------------------------------------------------ when no key can panic

  /** A key that the keyboard sends: any but pasting, where only printable ASCII characters are typed. */
  predicate OnKeyboard(k: Key) {
    !k.Paste? && (k.Typed? ==> 0x20 <= k.c as int < 0x7F)
  }

  predicate FromKeyboard(keys: seq<Key>) {
    forall k <- keys :: OnKeyboard(k)
  }

  /** These are exactly the keys that some keysym means. */
  lemma OnKeyboardIff(k: Key)
    ensures OnKeyboard(k) <==> exists keysym: uint32 :: DecodeKey(keysym) == k
  {
    if OnKeyboard(k) {
      assert DecodeKey(KeysymOf(k)) == k;
    }
  }

  function KeysymOf(k: Key): uint32
    requires OnKeyboard(k)
  {
    match k
    case Enter => 0xFF0D
    case Backspace => 0xFF08
    case Escape => 0xFF1B
    case Up => 0xFF52
    case Down => 0xFF54
    case Left => 0xFF51
    case Right => 0xFF53
    case Home => 0xFF50
    case End => 0xFF57
    case Delete => 0xFFFF
    case KillToEnd => 0x000B
    case KillLine => 0x0015
    case KillWord => 0x0017
    case Cancel => 0x0003
    case Typed(c) => c as int
    case Ignored => 0
  }

  /** Whatever is typed from here on, no key panics. */
  ghost predicate Safe(s: State)
    requires Valid(s)
  {
    forall keys :: FromKeyboard(keys) ==> Run(s, keys).Some?
  }

  lemma {:induction false} RunAppend(s: State, a: seq<Key>, b: seq<Key>)
    requires Valid(s) && Run(s, a).Some?
    ensures Run(s, a + b) == Run(Run(s, a).value, b)
  {
    if b == [] {
      assert a + b == a;
    } else {
      var n := |b| - 1;
      RunAppend(s, a, b[..n]);
      InitAndLast(b);
      AppendAssoc(a, b[..n], [b[n]]);
      OneMoreKey(s, a + b[..n], b[n]);
      OneMoreKey(Run(s, a).value, b[..n], b[n]);
    }
  }

  lemma OneMoreKey(s: State, keys: seq<Key>, k: Key)
    requires Valid(s)
    ensures Run(s, keys + [k]) == if Run(s, keys) == None then None else Step(Run(s, keys).value, k)
  {
    assert (keys + [k])[..|keys|] == keys;
  }

  lemma RunSnoc(s: State, keys: seq<Key>, k: Key)
    requires Valid(s) && Run(s, keys).Some?
    ensures Run(s, keys + [k]) == Step(Run(s, keys).value, k)
  {
    OneMoreKey(s, keys, k);
  }

  function Times(k: Key, n: nat): (keys: seq<Key>)
    ensures |keys| == n && forall i :: 0 <= i < n ==> keys[i] == k
  {
    seq(n, i => k)
  }

  lemma TimesStep(k: Key, n: nat)
    ensures Times(k, n + 1) == Times(k, n) + [k]
  {
  }

  lemma {:induction false} RightsMove(s: State, n: nat)
    requires Valid(s) && s.cursor + n <= Utf8.Len(s.input)
    ensures Run(s, Times(Right, n)) == Some(s.(cursor := s.cursor + n))
  {
    if n > 0 {
      RightsMove(s, n - 1);
      TimesStep(Right, n - 1);
      RunSnoc(s, Times(Right, n - 1), Right);
    }
  }

  lemma HomeThenRights(s: State, n: nat)
    requires Valid(s) && n <= Utf8.Len(s.input)
    ensures Run(s, [Home] + Times(Right, n)) == Some(s.(cursor := n))
  {
    var home := s.(cursor := 0);
    assert [] + [Home] == [Home];
    RunSnoc(s, [], Home);
    assert Run(s, [Home]) == Some(s.(cursor := 0));
    RightsMove(home, n);
    RunAppend(s, [Home], Times(Right, n));
  }

  /** To byte `n` of the line, and then a letter. */
  function TypeAt(n: nat): seq<Key> {
    [Home] + Times(Right, n) + [Typed('a')]
  }

  /** A line with a longer character panics when a letter is typed behind the first byte of it. */
  lemma LinePanics(s: State) returns (n: nat)
    requires Valid(s) && !IsAscii(s.input)
    ensures Run(s, TypeAt(n)) == None
  {
    var i := FirstLonger(s.input);
    n := i + 1;
    InsideCharacter(s.input, i);
    assert i + 1 <= Utf8.Len(s.input) && Step(s.(cursor := i + 1), Typed('a')) == None;
    HomeThenRights(s, n);
    RunSnoc(s, [Home] + Times(Right, n), Typed('a'));
  }

  lemma InsideCharacter(line: string, i: nat)
    requires i < |line| && !IsAsciiChar(line[i]) && IsAscii(line[..i])
    ensures i + 1 < Utf8.Len(line) && Utf8.CharIndex(line, i + 1) == None
  {
    assert line == line[..i] + ([line[i]] + line[i + 1..]);
    InsideBehind(line[..i], line[i], line[i + 1..]);
  }

  lemma InsideBehind(a: string, c: char, b: string)
    requires IsAscii(a) && !IsAsciiChar(c)
    ensures |a| + 1 < Utf8.Len(a + ([c] + b)) && Utf8.CharIndex(a + ([c] + b), |a| + 1) == None
  {
    Utf8.AsciiLen(a);
    Utf8.NoIndexInside(a, c, b, 1);
    Utf8.LenAppend(a, [c] + b);
    Utf8.LenCons(c, b);
  }

  lemma {:induction false} FirstLonger(line: string) returns (i: nat)
    requires !IsAscii(line)
    ensures i < |line| && !IsAsciiChar(line[i]) && IsAscii(line[..i])
  {
    if IsAsciiChar(line[0]) {
      var j := FirstLonger(line[1..]);
      i := j + 1;
      assert line[..i] == [line[0]] + line[1..][..j];
    } else {
      i := 0;
    }
  }

  lemma {:induction false} DownsLeave(s: State, n: nat)
    requires Valid(s) && s.index.Some? && n <= |s.history| - s.index.value
    ensures Run(s, Times(Down, n)).Some? && AfterDowns(s, n, Run(s, Times(Down, n)).value)
  {
    if n > 0 {
      DownsLeave(s, n - 1);
      TimesStep(Down, n - 1);
      RunSnoc(s, Times(Down, n - 1), Down);
      OneMoreDown(s, n - 1, Run(s, Times(Down, n - 1)).value);
    } else {
      assert Times(Down, 0) == [];
    }
  }

  /** The state some Downs after `s`. */
  predicate AfterDowns(s: State, n: nat, t: State)
    requires s.index.Some?
  {
    if n < |s.history| - s.index.value then
      t.history == s.history && t.index == Some(s.index.value + n) && t.temp == s.temp
    else t == State(s.temp, Utf8.Len(s.temp), s.history, None, "")
  }

  lemma OneMoreDown(s: State, n: nat, t: State)
    requires Valid(s) && s.index.Some? && n < |s.history| - s.index.value && Valid(t) && AfterDowns(s, n, t)
    ensures Step(t, Down) == Some(Next(t)) && AfterDowns(s, n + 1, Next(t))
  {
  }

  lemma {:induction false} UpsLoad(s: State, n: nat)
    requires Valid(s) && s.index == None && 0 < n <= |s.history|
    ensures Run(s, Times(Up, n)).Some?
    ensures var t := Run(s, Times(Up, n)).value;
            t.history == s.history && t.index == Some(|s.history| - n) && t.input == s.history[|s.history| - n]
  {
    TimesStep(Up, n - 1);
    if n > 1 {
      UpsLoad(s, n - 1);
    } else {
      assert Times(Up, 0) == [];
    }
    RunSnoc(s, Times(Up, n - 1), Up);
  }

  lemma KeyboardJoin(a: seq<Key>, b: seq<Key>)
    requires FromKeyboard(a) && FromKeyboard(b)
    ensures FromKeyboard(a + b)
  {
  }

  lemma UnsafeLine(s: State)
    requires Valid(s) && !IsAscii(s.input)
    ensures !Safe(s)
  {
    var n := LinePanics(s);
    KeyboardJoin([Home], Times(Right, n));
    KeyboardJoin([Home] + Times(Right, n), [Typed('a')]);
    assert FromKeyboard(TypeAt(n));
  }

  /** Where typing can lead to an unsafe state it is unsafe already. */
  lemma UnsafeBefore(s: State, keys: seq<Key>)
    requires Valid(s) && FromKeyboard(keys) && Run(s, keys).Some? && !Safe(Run(s, keys).value)
    ensures !Safe(s)
  {
    var more: seq<Key> :| FromKeyboard(more) && Run(Run(s, keys).value, more) == None;
    RunAppend(s, keys, more);
    KeyboardJoin(keys, more);
  }

  lemma UnsafeAside(s: State)
    requires Good(s) && s.index.Some? && !IsAscii(s.temp)
    ensures !Safe(s)
  {
    var n := |s.history| - s.index.value;
    DownsLeave(s, n);
    UnsafeLine(Run(s, Times(Down, n)).value);
    UnsafeBefore(s, Times(Down, n));
  }

  lemma {:induction false} UnsafeHistory(s: State, j: nat)
    requires Valid(s) && j < |s.history| && !IsAscii(s.history[j])
    ensures !Safe(s)
    decreases s.index.Some?
  {
    if s.index.Some? {
      var n := |s.history| - s.index.value;
      DownsLeave(s, n);
      UnsafeHistory(Run(s, Times(Down, n)).value, j);
      UnsafeBefore(s, Times(Down, n));
    } else {
      var n := |s.history| - j;
      UpsLoad(s, n);
      UnsafeLine(Run(s, Times(Up, n)).value);
      UnsafeBefore(s, Times(Up, n));
    }
  }

  /** No typed key can ever panic exactly when all text, in the line, aside and in the history, is
      ASCII. */
  lemma SafeIff(s: State)
    requires Good(s)
    ensures Safe(s) <==> AllAscii(s)
  {
    if AllAscii(s) {
      forall keys | FromKeyboard(keys)
        ensures Run(s, keys).Some?
      {
        RunRefinesZipper(s, keys);
      }
    } else if !IsAscii(s.input) {
      UnsafeLine(s);
    } else if !IsAscii(s.temp) {
      UnsafeAside(s);
    } else {
      var j: nat :| j < |s.history| && !IsAscii(s.history[j]);
      UnsafeHistory(s, j);
    }
  }

  /** Pasting one accented letter and moving left makes the next letter panic. */
  lemma PasteThenLeftPanics()
    ensures var e := [0xE9 as char]; Run(EMPTY, [Paste(e), Left, Typed('a')]) == None
  {
    var e := [0xE9 as char];
    assert e[1..] == "" && Utf8.Width(e[0]) == 2;
    assert Utf8.Len(e) == 2;
    assert "" + e + "" == e;
    var a, b, c: seq<Key> := [Paste(e)], [Paste(e), Left], [Paste(e), Left, Typed('a')];
    assert a[..0] == [] && b[..1] == a && c[..2] == b;
    assert Run(EMPTY, a) == Some(State(e, 2, [], None, ""));
    assert Run(EMPTY, b) == Some(State(e, 1, [], None, ""));
    assert Utf8.CharIndex(e, 1) == None;
  }

  // ------------------------------------------------------------------ walking through the history

  /** The depth after one more key. */
  function NextDepth(d: nat, k: Key, n: nat): nat {
    if k.Up? then Min(d + 1, n) else if k.Down? then Max(d - 1, 0) else d
  }

  /** How many entries back the line is, after Ups and Downs in a history of `n` entries. */
  function Depth(keys: seq<Key>, n: nat): nat {
    if keys == [] then 0
    else
      NextDepth(Depth(keys[..|keys| - 1], n), keys[|keys| - 1], n)
  }

  ghost predicate StaysBack(keys: seq<Key>, n: nat) {
    forall i :: 0 < i <= |keys| ==> Depth(keys[..i], n) > 0
  }

  predicate NoEnter(keys: seq<Key>) {
    forall i :: 0 <= i < |keys| ==> !keys[i].Enter?
  }

  /** The line shown is `d` entries back, and the typed line is kept aside. */
  predicate Back(typed: string, h: seq<string>, t: State, d: nat) {
    t.history == h && d <= |h| && if d == 0 then t.index == None else t.index == Some(|h| - d) && t.temp == typed
  }

  lemma BackStep(typed: string, h: seq<string>, t: State, d: nat, k: Key)
    requires Valid(t) && !k.Enter? && Back(typed, h, t, d) && NextDepth(d, k, |h|) > 0
    requires d == 0 ==> t.input == typed
    requires Step(t, k).Some?
    ensures Back(typed, h, Step(t, k).value, NextDepth(d, k, |h|))
  {
  }

  /** While the line is an entry of the history, the typed line is kept aside, whatever is edited. */
  lemma {:induction false} TypedLineIsKept(s: State, keys: seq<Key>)
    requires Valid(s) && s.index == None && NoEnter(keys) && StaysBack(keys, |s.history|) && Run(s, keys).Some?
    ensures Back(s.input, s.history, Run(s, keys).value, Depth(keys, |s.history|))
  {
    if keys != [] {
      var n := |keys| - 1;
      var init := keys[..n];
      assert forall i :: 0 < i <= n ==> init[..i] == keys[..i];
      TypedLineIsKept(s, init);
      assert keys[..|keys|] == keys;
      assert n > 0 ==> Depth(keys[..n], |s.history|) > 0;
      assert n == 0 ==> init == [];
      BackStep(s.input, s.history, Run(s, init).value, Depth(init, |s.history|), keys[n]);
    }
  }

  /** The number of keys in `keys` that equal `k`. */
  function Count(keys: seq<Key>, k: Key): nat {
    if keys == [] then 0
    else Count(keys[..|keys| - 1], k) + (if keys[|keys| - 1] == k then 1 else 0)
  }

  /** Each key is `k` or an inline key. */
  predicate OnlyInlineAnd(keys: seq<Key>, k: Key) {
    forall i :: 0 <= i < |keys| ==> keys[i] == k || IsInline(keys[i])
  }

  lemma {:induction false} UpsGoBack(keys: seq<Key>, n: nat)
    requires OnlyInlineAnd(keys, Up) && keys != [] && keys[0] == Up && Count(keys, Up) <= n
    ensures Depth(keys, n) == Count(keys, Up) > 0 && StaysBack(keys, n)
  {
    var m := |keys| - 1;
    var init := keys[..m];
    if m > 0 {
      UpsGoBack(init, n);
      StaysBackSnoc(keys, n);
    } else {
      assert keys == [Up] && init == [];
      assert keys[..1] == keys;
    }
  }

  lemma {:induction false} DownsComeForward(ups: seq<Key>, downs: seq<Key>, n: nat)
    requires OnlyInlineAnd(downs, Down) && ups != [] && StaysBack(ups, n)
    requires Count(downs, Down) < Depth(ups, n)
    ensures Depth(ups + downs, n) == Depth(ups, n) - Count(downs, Down)
    ensures StaysBack(ups + downs, n)
  {
    var keys := ups + downs;
    if downs == [] {
      assert keys == ups;
    } else {
      var m := |downs| - 1;
      DownsComeForward(ups, downs[..m], n);
      assert keys[..|keys| - 1] == ups + downs[..m];
      StaysBackSnoc(keys, n);
    }
  }

  lemma StaysBackSnoc(keys: seq<Key>, n: nat)
    requires keys != [] && StaysBack(keys[..|keys| - 1], n) && Depth(keys, n) > 0
    ensures StaysBack(keys, n)
  {
    var init := keys[..|keys| - 1];
    forall i | 0 < i <= |keys| ensures Depth(keys[..i], n) > 0 {
      if i < |keys| {
        assert keys[..i] == init[..i];
      } else {
        assert keys[..i] == keys;
      }
    }
  }

  /** As many Downs as Ups restore the typed line, with inline keys anywhere in between, on any text as
      long as none of them panics. */
  lemma UpsThenDowns(s: State, ups: seq<Key>, downs: seq<Key>)
    requires Valid(s) && s.index == None
    requires ups != [] && ups[0] == Up && OnlyInlineAnd(ups, Up) && Count(ups, Up) <= |s.history|
    requires OnlyInlineAnd(downs, Down) && Count(downs, Down) == Count(ups, Up) - 1
    requires Run(s, ups + downs).Some?
    ensures Run(s, ups + downs + [Down]) == Some(State(s.input, Utf8.Len(s.input), s.history, None, ""))
  {
    UpsGoBack(ups, |s.history|);
    DownsComeForward(ups, downs, |s.history|);
    TypedLineIsKept(s, ups + downs);
    assert (ups + downs + [Down])[..|ups + downs|] == ups + downs;
  }
}
