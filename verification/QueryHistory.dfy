/** The command history of the line editor, told by the queries that a run handed out, and what each keysym does. */
module QueryHistory {
  import opened Prelude
  import opened QueryEditor
  import opened Text
  import Utf8

  // ------------------------------------------------------------------ what the history holds

  /** The query that a key hands out: Enter the trimmed line, unless that is empty. */
  function HandedBy(line: string, k: Key): seq<string> {
    if k == Enter && Trim(line) != "" then [Trim(line)] else []
  }

  /** Nothing else is handed out, by whatever key. */
  lemma SubmittedIff(s: State, k: Key, query: string)
    ensures Submitted(s, k) == Some(query) <==> HandedBy(s.input, k) == [query]
  {
  }

  /** The queries that a run hands out, in order. */
  function Handed(keys: seq<Key>): seq<string>
    requires Run(EMPTY, keys).Some?
  {
    if keys == [] then []
    else
      var n := |keys| - 1;
      Handed(keys[..n]) + HandedBy(Run(EMPTY, keys[..n]).value.input, keys[n])
  }

  /** The elements that differ from the one before them. */
  function WithoutRepeats<T(==)>(q: seq<T>): (r: seq<T>)
    ensures r == [] <==> q == []
    ensures q != [] ==> r[|r| - 1] == q[|q| - 1]
  {
    var n := |q|;
    if n <= 1 then q
    else WithoutRepeats(q[..n - 1]) + (if q[n - 1] != q[n - 2] then [q[n - 1]] else [])
  }

  /** Distinct commands in a row, of the whole run. */
  function Commands(keys: seq<Key>): seq<string>
    requires Run(EMPTY, keys).Some?
  {
    WithoutRepeats(Handed(keys))
  }

  /** The last 250 of them. */
  predicate AreLast(h: seq<string>, d: seq<string>) {
    h == if |d| > 250 then d[|d| - 250..] else d
  }

  lemma OneMoreRemembered(h: seq<string>, d: seq<string>, command: string)
    requires AreLast(h, d)
    ensures AreLast(if |h + [command]| > 250 then (h + [command])[1..] else h + [command], d + [command])
  {
  }

  lemma RepeatsSnoc(q: seq<string>, command: string)
    ensures WithoutRepeats(q + [command])
         == if q != [] && q[|q| - 1] == command then WithoutRepeats(q) else WithoutRepeats(q) + [command]
  {
    assert (q + [command])[..|q|] == q;
  }

  lemma Remembered(s: State, q: seq<string>, command: string)
    requires AreLast(s.history, WithoutRepeats(q)) && Trim(command) != ""
    ensures AreLast(Remember(s, command).history, WithoutRepeats(q + [command]))
  {
    RepeatsSnoc(q, command);
    OneMoreRemembered(s.history, WithoutRepeats(q), command);
  }

  lemma EnterRemembers(s: State, q: seq<string>)
    requires AreLast(s.history, WithoutRepeats(q))
    ensures AreLast(Submit(s).history, WithoutRepeats(q + HandedBy(s.input, Enter)))
  {
    var query := Trim(s.input);
    if query == "" {
      assert q + [] == q;
    } else {
      TrimIsTight(s.input);
      TrimIsTight(query);
      Remembered(Load(s, ""), q, query);
    }
  }

  lemma StepRemembers(s: State, k: Key, t: State, q: seq<string>)
    requires Valid(s) && Step(s, k) == Some(t) && AreLast(s.history, WithoutRepeats(q))
    ensures AreLast(t.history, WithoutRepeats(q + HandedBy(s.input, k)))
  {
    if k.Enter? {
      EnterRemembers(s, q);
    } else {
      HistoryUntouched(s, k);
      assert q + [] == q;
    }
  }

  /** In every run, on any text: the history is exactly the last 250 commands that were handed out, oldest first,
      without those equal to the one before. */
  lemma {:induction false} HistoryIsLast(keys: seq<Key>)
    requires Run(EMPTY, keys).Some?
    ensures AreLast(Run(EMPTY, keys).value.history, Commands(keys))
  {
    if keys != [] {
      var n := |keys| - 1;
      HistoryIsLast(keys[..n]);
      StepRemembers(Run(EMPTY, keys[..n]).value, keys[n], Run(EMPTY, keys).value, Handed(keys[..n]));
    }
  }

  lemma HistoryUntouched(s: State, k: Key)
    requires Valid(s) && !k.Enter? && Step(s, k).Some?
    ensures Step(s, k).value.history == s.history
  {
  }

  // ------------------------------------------------------------------ walking through it

  /** The state after some Ups that reached `m` entries back. */
  predicate IsBack(s: State, m: nat, t: State) {
    if m == 0 then t == s
    else m <= |s.history|
         && t == State(s.history[|s.history| - m], Utf8.Len(t.input), s.history, Some(|s.history| - m), s.input)
  }

  lemma {:induction false} UpsReach(s: State, k: nat)
    requires Valid(s) && s.index == None
    ensures Run(s, Times(Up, k)).Some?
    ensures IsBack(s, Min(k, |s.history|), Run(s, Times(Up, k)).value)
  {
    if k == 0 {
      assert Times(Up, 0) == [];
    } else {
      UpsReach(s, k - 1);
      TimesStep(Up, k - 1);
      RunSnoc(s, Times(Up, k - 1), Up);
      OneMoreUp(s, Min(k - 1, |s.history|), Run(s, Times(Up, k - 1)).value);
    }
  }

  lemma OneMoreUp(s: State, m: nat, t: State)
    requires Valid(s) && s.index == None && Valid(t) && m <= |s.history| && IsBack(s, m, t)
    ensures Step(t, Up) == Some(Previous(t)) && IsBack(s, Min(m + 1, |s.history|), Previous(t))
  {
  }

  /** The line after that and some Downs. */
  predicate Shows(s: State, m: nat, j: nat, t: State)
    requires m <= |s.history|
  {
    if j < m then
      t.input == s.history[|s.history| - m + j] && t.index == Some(|s.history| - m + j) && t.temp == s.input
    else t.input == s.input && t.index == None
  }

  lemma {:induction false} DownsShow(s: State, m: nat, t: State, j: nat)
    requires Valid(s) && s.index == None && Valid(t) && m <= |s.history| && IsBack(s, m, t)
    ensures Run(t, Times(Down, j)).Some? && Run(t, Times(Down, j)).value.history == s.history
    ensures Shows(s, m, j, Run(t, Times(Down, j)).value)
  {
    if j == 0 {
      assert Times(Down, 0) == [];
    } else {
      DownsShow(s, m, t, j - 1);
      TimesStep(Down, j - 1);
      RunSnoc(t, Times(Down, j - 1), Down);
      OneDown(s, m, j - 1, Run(t, Times(Down, j - 1)).value);
    }
  }

  lemma OneDown(s: State, m: nat, j: nat, t: State)
    requires Valid(t) && m <= |s.history| && t.history == s.history && Shows(s, m, j, t)
    ensures Step(t, Down) == Some(Next(t)) && Next(t).history == s.history && Shows(s, m, j + 1, Next(t))
  {
  }

  lemma UpsThenDownsShow(s: State, k: nat, j: nat, m: nat)
    requires Valid(s) && s.index == None && m == Min(k, |s.history|)
    ensures ShowsAfter(s, Times(Up, k) + Times(Down, j), if j < m then s.history[|s.history| - m + j] else s.input)
  {
    UpsReach(s, k);
    DownsShow(s, m, Run(s, Times(Up, k)).value, j);
    RunAppend(s, Times(Up, k), Times(Down, j));
  }

  /** The keys do not panic, and leave this line. */
  predicate ShowsAfter(s: State, keys: seq<Key>, line: string)
    requires Valid(s)
  {
    Run(s, keys).Some? && Run(s, keys).value.input == line
  }

  lemma ShowsBehind(s: State, keys: seq<Key>, more: seq<Key>, line: string)
    requires Valid(s) && Run(s, keys).Some? && ShowsAfter(Run(s, keys).value, more, line)
    ensures ShowsAfter(s, keys + more, line)
  {
    RunAppend(s, keys, more);
  }

  /** The command `m - j` from the end of `d`, or the typed line when there are no more. */
  function Walked(d: seq<string>, typed: string, m: nat, j: nat): string
    requires m <= |d|
  {
    if j < m then d[|d| - m + j] else typed
  }

  lemma WalkFrom(s: State, d: seq<string>, k: nat, j: nat, m: nat)
    requires Valid(s) && s.index == None && AreLast(s.history, d) && m == Min(k, Min(|d|, 250))
    ensures ShowsAfter(s, Times(Up, k) + Times(Down, j), Walked(d, s.input, m, j))
  {
    LastEntry(s.history, d, m, j);
    UpsThenDownsShow(s, k, j, m);
  }

  /** After any run that is not in the history, `k` Ups and then `j` Downs show the command `k - j` from the end of
      those handed out, never further back than the oldest of the last 250, and the typed line again once the Downs
      have caught up. */
  lemma WalkExact(keys: seq<Key>, k: nat, j: nat, m: nat)
    requires Run(EMPTY, keys).Some? && Run(EMPTY, keys).value.index == None
    requires m == Min(k, Min(|Commands(keys)|, 250))
    ensures ShowsAfter(EMPTY, keys + (Times(Up, k) + Times(Down, j)),
                       Walked(Commands(keys), Run(EMPTY, keys).value.input, m, j))
  {
    var s, d := Run(EMPTY, keys).value, Commands(keys);
    HistoryIsLast(keys);
    WalkFrom(s, d, k, j, m);
    ShowsBehind(EMPTY, keys, Times(Up, k) + Times(Down, j), Walked(d, s.input, m, j));
  }

  lemma LastEntry(h: seq<string>, d: seq<string>, m: nat, j: nat)
    requires AreLast(h, d)
    ensures |h| == Min(|d|, 250)
    ensures j < m <= |h| ==> h[|h| - m + j] == d[|d| - m + j]
  {
  }

  // ------------------------------------------------------------------ keysyms

  /** What the keysyms of editing and moving are meant to do with the text before and after the cursor: `b` and `a`
      become `b2` and `a2`. */
  ghost predicate Meant(keysym: uint32, b: string, a: string, b2: string, a2: string) {
    if keysym in [0xFF0D, 0xFF1B, 0x0015, 0x0003] then b2 == "" && a2 == ""
    else if keysym in [0xFF50, 0x0001] then b2 == "" && a2 == b + a
    else if keysym in [0xFF57, 0x0005] then b2 == b + a && a2 == ""
    else if keysym == 0xFF51 && b != "" then b2 == b[..|b| - 1] && a2 == [b[|b| - 1]] + a
    else if keysym == 0xFF53 && a != "" then b2 == b + [a[0]] && a2 == a[1..]
    else if keysym == 0xFF08 && b != "" then b2 == b[..|b| - 1] && a2 == a
    else if keysym == 0xFFFF && a != "" then b2 == b && a2 == a[1..]
    else if keysym == 0x000B then b2 == b && a2 == ""
    else if keysym == 0x0017 && b != "" then b2 <= b && IsKillPoint(b, |b2|) && a2 == a
    else if 0x20 <= keysym < 0x7F then b2 == b + [keysym as char] && a2 == a
    else b2 == b && a2 == a
  }

  lemma ZipMeant(z: Zipper, keysym: uint32)
    requires keysym != 0xFF52 && keysym != 0xFF54
    ensures var k := DecodeKey(keysym);
            !k.Up? && !k.Down? && Meant(keysym, z.before, z.after, ZipStep(z, k).before, ZipStep(z, k).after)
  {
  }

  lemma ViewOnAscii(s: State, z: Zipper)
    requires Valid(s) && IsAscii(s.input) && OnBoundary(s)
    ensures View(s) == z <==> s.input == z.before + z.after && s.cursor == |z.before|
  {
    AsciiView(s);
    assert s.input == s.input[..s.cursor] + s.input[s.cursor..];
    if s.input == z.before + z.after && s.cursor == |z.before| {
      assert s.input[..s.cursor] == z.before && s.input[s.cursor..] == z.after;
    }
  }

  /** On ASCII text every keysym but those of Up and Down does what is meant, around a cursor between `b` and `a`. */
  lemma KeysymsAct(s: State, keysym: uint32, b: string, a: string) returns (t: State, b2: string, a2: string)
    requires Valid(s) && AllAscii(s) && s.input == b + a && s.cursor == |b|
    requires keysym != 0xFF52 && keysym != 0xFF54
    ensures Step(s, DecodeKey(keysym)) == Some(t) && t.input == b2 + a2 && t.cursor == |b2|
    ensures Meant(keysym, b, a, b2, a2)
  {
    var k := DecodeKey(keysym);
    EditorRefinesZipper(s, k);
    ZipMeant(View(s), keysym);
    ViewOnAscii(s, Zipper(b, a));
    t := Step(s, k).value;
    StepValid(s, k);
    b2, a2 := View(t).before, View(t).after;
    ViewOnAscii(t, View(t));
  }

  /** Up shows the entry before, first of all the last, and keeps the typed line aside; Down shows the entry behind,
      and the typed line behind the last. */
  lemma HistoryKeysyms(s: State)
    requires Valid(s)
    ensures s.index == None && s.history != [] ==>
              Step(s, DecodeKey(0xFF52)).value.input == s.history[|s.history| - 1]
    ensures s.index.Some? && s.index.value > 0 ==>
              Step(s, DecodeKey(0xFF52)).value.input == s.history[s.index.value - 1]
    ensures s.index.Some? && s.index.value + 1 < |s.history| ==>
              Step(s, DecodeKey(0xFF54)).value.input == s.history[s.index.value + 1]
    ensures s.index.Some? && s.index.value + 1 == |s.history| ==>
              Step(s, DecodeKey(0xFF54)).value.input == s.temp
  {
  }
}
