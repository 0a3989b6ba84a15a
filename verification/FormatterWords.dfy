/** What a printf-like format means, said without the scanner: a format is blanks and words, a word is
    pieces, and the arguments of the command are the texts of the words. */
module FormatterWords {
  import opened Basics
  import opened Formatter

  /** Given stands for %s and %b with the string that was passed; Lone is a percent sign that ends the
      format. */
  datatype Piece = Plain(c: char) | Percent | Given(conversion: char, text: string) | Lone {
    predicate Good() {
      match this
      case Plain(c) => c != ' ' && c != '%'
      case Given(conversion, _) => conversion == 's' || conversion == 'b'
      case _ => true
    }

    function Written(): string {
      match this
      case Plain(c) => [c]
      case Percent => "%%"
      case Given(conversion, _) => "%" + [conversion]
      case Lone => "%"
    }

    function Text(): string {
      match this
      case Plain(c) => [c]
      case Given(_, text) => text
      case _ => "%"
    }

    function Passed(): seq<string> { if Given? then [text] else [] }
  }

  /** A word and the number of blanks after it. */
  datatype Word = Word(pieces: seq<Piece>, gap: nat)

  function Written(pieces: seq<Piece>): string {
    if pieces == [] then "" else pieces[0].Written() + Written(pieces[1..])
  }

  function Text(pieces: seq<Piece>): string {
    if pieces == [] then "" else pieces[0].Text() + Text(pieces[1..])
  }

  function Passed(pieces: seq<Piece>): seq<string> {
    if pieces == [] then [] else pieces[0].Passed() + Passed(pieces[1..])
  }

  function Blanks(n: nat): string { if n == 0 then "" else " " + Blanks(n - 1) }

  function WordsWritten(words: seq<Word>): string {
    if words == [] then ""
    else Written(words[0].pieces) + (Blanks(words[0].gap) + WordsWritten(words[1..]))
  }

  function WordsPassed(words: seq<Word>): seq<string> {
    if words == [] then [] else Passed(words[0].pieces) + WordsPassed(words[1..])
  }

  function Arguments(words: seq<Word>): (argv: seq<string>)
    ensures |argv| == |words|
    ensures forall i :: 0 <= i < |words| ==> argv[i] == Text(words[i].pieces)
  {
    if words == [] then [] else [Text(words[0].pieces)] + Arguments(words[1..])
  }

  /** Pieces of which only the last one, if the format ends there, may be a lone percent sign. */
  ghost predicate GoodPieces(pieces: seq<Piece>, ends: bool) {
    forall i :: 0 <= i < |pieces| ==> pieces[i].Good() && (pieces[i].Lone? ==> ends && i == |pieces| - 1)
  }

  /** Words have pieces, and blanks set them apart. */
  ghost predicate GoodWords(words: seq<Word>) {
    forall i :: 0 <= i < |words| ==>
      var w := words[i];
      && w.pieces != []
      && (i < |words| - 1 ==> w.gap > 0)
      && GoodPieces(w.pieces, i == |words| - 1 && w.gap == 0)
  }

  // ---------- a layout is scanned as it is meant ----------

  ghost predicate Scans(fmt: string, parts: seq<string>, st: Scan) {
    Supported(fmt) && st.used + Conversions(fmt) <= |parts|
  }

  /** The next strings passed are these. */
  ghost predicate Next(parts: seq<string>, used: nat, passed: seq<string>) {
    used + |passed| <= |parts| && forall i :: 0 <= i < |passed| ==> parts[used + i] == passed[i]
  }

  lemma NextSplit(parts: seq<string>, used: nat, a: seq<string>, b: seq<string>)
    requires Next(parts, used, a + b)
    ensures Next(parts, used, a) && Next(parts, used + |a|, b)
  {
    forall i | 0 <= i < |a| ensures parts[used + i] == a[i] { assert (a + b)[i] == a[i]; }
    forall i | 0 <= i < |b| ensures parts[used + |a| + i] == b[i] { assert (a + b)[|a| + i] == b[i]; }
  }

  lemma CharScans(c: char, rest: string, parts: seq<string>, st: Scan)
    requires (c == '%' ==> rest == "") && Scans(rest, parts, st)
    ensures var fmt := [c] + rest;
            && Scans(fmt, parts, st)
            && Conversions(fmt) == Conversions(rest)
            && ScanFormat(fmt, parts, st) == ScanFormat(rest, parts, if c == ' ' then st.Flush() else st.Add([c]))
  {
    var fmt := [c] + rest;
    assert fmt[1..] == rest && fmt[..1] == [c];
  }

  lemma PercentScans(rest: string, parts: seq<string>, st: Scan)
    requires Scans(rest, parts, st)
    ensures var fmt := "%%" + rest;
            && Scans(fmt, parts, st)
            && Conversions(fmt) == Conversions(rest)
            && ScanFormat(fmt, parts, st) == ScanFormat(rest, parts, st.Add("%"))
  {
    var fmt := "%%" + rest;
    assert fmt[2..] == rest && fmt[0] == '%' && fmt[1] == '%' && "sb%"[2] == '%';
  }

  lemma PairShape(c: char, rest: string)
    ensures var fmt := "%" + [c] + rest;
            |fmt| == 2 + |rest| && fmt[0] == '%' && fmt[1] == c && fmt[0..] == fmt && fmt[2..] == rest
  {
  }

  lemma ConversionScans(c: char, rest: string)
    requires (c == 's' || c == 'b') && Supported(rest)
    ensures Supported("%" + [c] + rest) && Conversions("%" + [c] + rest) == 1 + Conversions(rest)
  {
    var fmt := "%" + [c] + rest;
    assert fmt[2..] == rest && fmt[0] == '%' && fmt[1] == c;
    assert "sb"[0] == 's' && "sb"[1] == 'b' && "sb%"[0] == 's' && "sb%"[1] == 'b';
  }

  /** The scanner after a word's pieces. */
  function Seen(st: Scan, text: string, n: nat): Scan { Scan(st.argv, st.cur + text, true, st.used + n) }

  lemma StepGiven(fmt: string, parts: seq<string>, st: Scan)
    requires |fmt| > 1 && fmt[0] == '%' && fmt[1] != '%' && Scans(fmt, parts, st) && st.used < |parts|
    requires Scans(fmt[2..], parts, Seen(st, parts[st.used], 1))
    ensures ScanFormat(fmt, parts, st) == ScanFormat(fmt[2..], parts, Seen(st, parts[st.used], 1))
  {
  }

  lemma GivenScans(c: char, rest: string, parts: seq<string>, st: Scan)
    requires (c == 's' || c == 'b') && st.used < |parts| && Scans(rest, parts, Seen(st, parts[st.used], 1))
    ensures var fmt := "%" + [c] + rest;
            && Scans(fmt, parts, st)
            && Conversions(fmt) == 1 + Conversions(rest)
            && ScanFormat(fmt, parts, st) == ScanFormat(rest, parts, Seen(st, parts[st.used], 1))
  {
    hide ScanFormat, Supported, Conversions;
    var fmt := "%" + [c] + rest;
    ConversionScans(c, rest);
    PairShape(c, rest);
    StepGiven(fmt, parts, st);
  }

  lemma PieceScans(p: Piece, rest: string, parts: seq<string>, st: Scan)
    requires p.Good() && (p.Lone? ==> rest == "") && Next(parts, st.used, p.Passed())
    requires Scans(rest, parts, Seen(st, p.Text(), |p.Passed()|))
    ensures var fmt := p.Written() + rest;
            && Scans(fmt, parts, st)
            && Conversions(fmt) == |p.Passed()| + Conversions(rest)
            && ScanFormat(fmt, parts, st) == ScanFormat(rest, parts, Seen(st, p.Text(), |p.Passed()|))
  {
    hide ScanFormat, Supported, Conversions;
    match p
    case Plain(c) => CharScans(c, rest, parts, st);
    case Lone => CharScans('%', rest, parts, st);
    case Percent => PercentScans(rest, parts, st);
    case Given(c, text) =>
      assert parts[st.used + 0] == p.Passed()[0];
      GivenScans(c, rest, parts, st);
  }

  lemma {:induction false} PiecesScan(pieces: seq<Piece>, rest: string, parts: seq<string>, st: Scan)
    requires pieces != [] && GoodPieces(pieces, rest == "") && Next(parts, st.used, Passed(pieces))
    requires Scans(rest, parts, Seen(st, Text(pieces), |Passed(pieces)|))
    ensures var fmt := Written(pieces) + rest;
            && Scans(fmt, parts, st)
            && Conversions(fmt) == |Passed(pieces)| + Conversions(rest)
            && ScanFormat(fmt, parts, st) == ScanFormat(rest, parts, Seen(st, Text(pieces), |Passed(pieces)|))
  {
    hide ScanFormat, Supported, Conversions, Next, Piece.Written, Piece.Text, Piece.Passed, Piece.Good;
    var p, more := pieces[0], pieces[1..];
    var next := Seen(st, p.Text(), |p.Passed()|);
    NextSplit(parts, st.used, p.Passed(), Passed(more));
    assert p.Written() + (Written(more) + rest) == Written(pieces) + rest;
    assert st.cur + (p.Text() + Text(more)) == (st.cur + p.Text()) + Text(more);
    if more == [] {
      assert Written(more) + rest == rest;
      assert Seen(st, Text(pieces), |Passed(pieces)|) == next;
    } else {
      PiecesScan(more, rest, parts, next);
    }
    PieceScans(p, Written(more) + rest, parts, st);
  }

  lemma {:induction false} BlanksScan(n: nat, rest: string, parts: seq<string>, st: Scan)
    requires Scans(rest, parts, st)
    ensures var fmt := Blanks(n) + rest;
            && Scans(fmt, parts, st)
            && Conversions(fmt) == Conversions(rest)
            && ScanFormat(fmt, parts, st) == ScanFormat(rest, parts, if n == 0 then st else st.Flush())
    decreases n
  {
    hide ScanFormat, Supported, Conversions;
    if n == 0 {
      assert Blanks(n) + rest == rest;
    } else {
      assert Blanks(n) + rest == [' '] + (Blanks(n - 1) + rest);
      BlanksScan(n - 1, rest, parts, st.Flush());
      CharScans(' ', Blanks(n - 1) + rest, parts, st);
    }
  }

  lemma {:induction false} WordsScan(words: seq<Word>, parts: seq<string>, argv: seq<string>, used: nat)
    requires GoodWords(words) && Next(parts, used, WordsPassed(words))
    ensures var fmt, st := WordsWritten(words), Scan(argv, "", false, used);
            && Scans(fmt, parts, st)
            && Conversions(fmt) == |WordsPassed(words)|
            && ScanFormat(fmt, parts, st).argv == argv + Arguments(words)
  {
    hide ScanFormat, Supported, Conversions, Blanks, Next, GoodWords, Passed, Text, Written;
    var st := Scan(argv, "", false, used);
    if words == [] {
      assert used <= |parts| by { EmptyNext(parts, used); }
      ScanEnds(parts, st);
    } else {
      var w, more := words[0], words[1..];
      var n, text := |Passed(w.pieces)|, Text(w.pieces);
      NextSplit(parts, used, Passed(w.pieces), WordsPassed(more));
      FirstWord(words);
      WordsScan(more, parts, argv + [text], used + n);
      Regroup(argv, [text], Arguments(more));
      WordScans(w, WordsWritten(more), parts, argv, used);
    }
  }

  lemma EmptyNext(parts: seq<string>, used: nat)
    requires Next(parts, used, [])
    ensures used <= |parts|
  {
  }

  /** One word and the blanks after it, or the end. */
  lemma WordScans(w: Word, rest: string, parts: seq<string>, argv: seq<string>, used: nat)
    requires w.pieces != [] && (w.gap == 0 ==> rest == "")
    requires GoodPieces(w.pieces, Blanks(w.gap) + rest == "") && Next(parts, used, Passed(w.pieces))
    requires Scans(rest, parts, Scan(argv + [Text(w.pieces)], "", false, used + |Passed(w.pieces)|))
    ensures var fmt, st := Written(w.pieces) + (Blanks(w.gap) + rest), Scan(argv, "", false, used);
            && Scans(fmt, parts, st)
            && Conversions(fmt) == |Passed(w.pieces)| + Conversions(rest)
            && ScanFormat(fmt, parts, st)
               == ScanFormat(rest, parts, Scan(argv + [Text(w.pieces)], "", false, used + |Passed(w.pieces)|))
  {
    hide ScanFormat, Supported, Conversions, Blanks, Next, GoodPieces, Passed, Text, Written;
    var st := Scan(argv, "", false, used);
    var n, text := |Passed(w.pieces)|, Text(w.pieces);
    var touched := Seen(st, text, n);
    assert "" + text == text;
    BlanksScan(w.gap, rest, parts, touched);
    PiecesScan(w.pieces, Blanks(w.gap) + rest, parts, st);
    if w.gap == 0 {
      ScanEnds(parts, touched);
      ScanEnds(parts, touched.Flush());
    }
  }

  lemma FirstWord(words: seq<Word>)
    requires GoodWords(words) && words != []
    ensures GoodWords(words[1..])
    ensures var w, rest := words[0], WordsWritten(words[1..]);
            && w.pieces != []
            && (w.gap == 0 ==> rest == "")
            && GoodPieces(w.pieces, Blanks(w.gap) + rest == "")
  {
  }

  /** Words with pieces of %s, %b, %% and plain text, set apart by blanks and with blanks allowed at both
      ends, are exactly the arguments of the command: each is the text of its pieces, in order. */
  lemma FormatMeans(lead: nat, words: seq<Word>, parts: seq<string>)
    requires GoodWords(words) && WordsPassed(words) <= parts
    ensures var fmt := Blanks(lead) + WordsWritten(words);
            && Supported(fmt)
            && Conversions(fmt) == |WordsPassed(words)|
            && ScanFormat(fmt, parts, EMPTY_SCAN).argv == Arguments(words)
  {
    hide ScanFormat, Supported, Conversions, GoodWords, WordsWritten, Blanks;
    WordsScan(words, parts, [], 0);
    BlanksScan(lead, WordsWritten(words), parts, EMPTY_SCAN);
    assert [] + Arguments(words) == Arguments(words);
  }

  // ---------- every format is a layout ----------

  function Prefixed(p: Piece, lead: nat, words: seq<Word>): seq<Word> {
    if lead == 0 && words != [] then [Word([p] + words[0].pieces, words[0].gap)] + words[1..]
    else [Word([p], lead)] + words
  }

  /** The blanks at the front of a format and its words. */
  function Laid(fmt: string, parts: seq<string>): (nat, seq<Word>)
    requires Supported(fmt) && Conversions(fmt) <= |parts|
    decreases |fmt|
  {
    if fmt == [] then (0, [])
    else if fmt[0] == ' ' then var (lead, words) := Laid(fmt[1..], parts); (lead + 1, words)
    else if fmt[0] != '%' || |fmt| == 1 then
      var (lead, words) := Laid(fmt[1..], parts);
      (0, Prefixed(if fmt[0] == '%' then Lone else Plain(fmt[0]), lead, words))
    else
      var given := fmt[1] != '%';
      var (lead, words) := Laid(fmt[2..], if given then parts[1..] else parts);
      (0, Prefixed(if given then Given(fmt[1], parts[0]) else Percent, lead, words))
  }

  lemma PiecesCons(p: Piece, pieces: seq<Piece>)
    ensures Written([p] + pieces) == p.Written() + Written(pieces)
    ensures Passed([p] + pieces) == p.Passed() + Passed(pieces)
  {
    assert ([p] + pieces)[1..] == pieces;
  }

  lemma WordsCons(w: Word, words: seq<Word>)
    ensures WordsWritten([w] + words) == Written(w.pieces) + (Blanks(w.gap) + WordsWritten(words))
    ensures WordsPassed([w] + words) == Passed(w.pieces) + WordsPassed(words)
  {
    assert ([w] + words)[1..] == words;
  }

  lemma PrefixedIs(p: Piece, lead: nat, words: seq<Word>)
    ensures var more := Prefixed(p, lead, words);
            && WordsWritten(more) == p.Written() + (Blanks(lead) + WordsWritten(words))
            && WordsPassed(more) == p.Passed() + WordsPassed(words)
  {
    hide Written, Passed, WordsWritten, WordsPassed;
    if lead == 0 && words != [] {
      var w, rest := words[0], words[1..];
      assert words == [w] + rest && Blanks(0) + WordsWritten(words) == WordsWritten(words);
      WordsCons(w, rest);
      WordsCons(Word([p] + w.pieces, w.gap), rest);
      PiecesCons(p, w.pieces);
      Regroup(p.Written(), Written(w.pieces), Blanks(w.gap) + WordsWritten(rest));
      Regroup(p.Passed(), Passed(w.pieces), WordsPassed(rest));
    } else {
      WordsCons(Word([p], lead), words);
      OnePiece(p);
    }
  }

  lemma OnePiece(p: Piece)
    ensures Written([p]) == p.Written() && Passed([p]) == p.Passed()
  {
  }

  lemma PrefixedGood(p: Piece, lead: nat, words: seq<Word>)
    requires p.Good() && GoodWords(words) && (p.Lone? ==> lead == 0 && words == [])
    ensures GoodWords(Prefixed(p, lead, words))
  {
    var more := Prefixed(p, lead, words);
    if lead == 0 && words != [] {
      forall i | 0 < i < |more| ensures more[i] == words[i] {}
      assert GoodPieces(words[0].pieces, |words| == 1 && words[0].gap == 0);
    } else {
      forall i | 0 < i < |more| ensures more[i] == words[i - 1] {}
    }
  }

  /** Blanks and words that make up a format and take these strings. */
  ghost predicate Lays(lead: nat, words: seq<Word>, fmt: string, passed: seq<string>) {
    GoodWords(words) && Blanks(lead) + WordsWritten(words) == fmt && WordsPassed(words) == passed
  }

  lemma PrefixedLays(p: Piece, lead: nat, words: seq<Word>, rest: string, passed: seq<string>)
    requires p.Good() && Lays(lead, words, rest, passed) && (p.Lone? ==> lead == 0 && words == [])
    ensures Lays(0, Prefixed(p, lead, words), p.Written() + rest, p.Passed() + passed)
  {
    hide GoodWords, Prefixed, WordsWritten, WordsPassed;
    PrefixedGood(p, lead, words);
    PrefixedIs(p, lead, words);
    Regroup([], [], WordsWritten(Prefixed(p, lead, words)));
  }

  lemma BlankLays(lead: nat, words: seq<Word>, rest: string, passed: seq<string>)
    requires Lays(lead, words, rest, passed)
    ensures Lays(lead + 1, words, " " + rest, passed)
  {
    hide GoodWords, WordsWritten, WordsPassed;
    Regroup(" ", Blanks(lead), WordsWritten(words));
  }

  /** Every format the model covers is such a layout. */
  lemma {:induction false} EveryFormat(fmt: string, parts: seq<string>)
    requires Supported(fmt) && Conversions(fmt) <= |parts|
    ensures var (lead, words) := Laid(fmt, parts);
            Lays(lead, words, fmt, parts[..Conversions(fmt)])
    decreases |fmt|
  {
    hide Lays, Prefixed;
    if fmt == [] {
      NoWords();
    } else if fmt[0] != '%' || |fmt| == 1 {
      EveryFormat(fmt[1..], parts);
      var (lead, words) := Laid(fmt[1..], parts);
      assert [fmt[0]] + fmt[1..] == fmt;
      if fmt[0] == ' ' {
        BlankLays(lead, words, fmt[1..], parts[..Conversions(fmt)]);
      } else {
        var p := if fmt[0] == '%' then Lone else Plain(fmt[0]);
        Regroup([], [], parts[..Conversions(fmt)]);
        PrefixedLays(p, lead, words, fmt[1..], parts[..Conversions(fmt)]);
      }
    } else if fmt[1] == '%' {
      EveryFormat(fmt[2..], parts);
      var (lead, words) := Laid(fmt[2..], parts);
      assert "%%" + fmt[2..] == fmt;
      Regroup([], [], parts[..Conversions(fmt)]);
      PrefixedLays(Percent, lead, words, fmt[2..], parts[..Conversions(fmt)]);
    } else {
      GivenLaid(fmt, parts);
    }
  }

  lemma GivenLaid(fmt: string, parts: seq<string>)
    requires Supported(fmt) && Conversions(fmt) <= |parts|
    requires |fmt| > 1 && fmt[0] == '%' && fmt[1] != '%'
    ensures var (lead, words) := Laid(fmt, parts);
            Lays(lead, words, fmt, parts[..Conversions(fmt)])
    decreases |fmt|, 0
  {
    hide Lays, Prefixed;
    EveryFormat(fmt[2..], parts[1..]);
    var (lead, words) := Laid(fmt[2..], parts[1..]);
    assert "%" + [fmt[1]] + fmt[2..] == fmt;
    var n := Conversions(fmt[2..]);
    assert [parts[0]] + parts[1..][..n] == parts[..n + 1];
    PrefixedLays(Given(fmt[1], parts[0]), lead, words, fmt[2..], parts[1..][..n]);
  }

  lemma NoWords()
    ensures Lays(0, [], "", [])
  {
  }
}
