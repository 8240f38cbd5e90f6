/**
 * The two loops that build card lists from lines: reading a dictionary (one
 * card per line, malformed lines reported by their 1-based number and
 * skipped) and authoring one interactively (one card per entered line until
 * a bare newline or the end of input).
 */
module Dictionary {
  import opened Wrappers
  import opened Text
  import opened Cards

  /** The parse of every line, in order. */
  function ParseAll(lines: seq<string>): (ps: seq<Option<Card>>)
    ensures |ps| == |lines|
  {
    seq(|lines|, i requires 0 <= i < |lines| => ParseNewCard(lines[i]))
  }

  /** The cards among some parse results, in order. */
  function Kept(ps: seq<Option<Card>>): seq<Card>
  {
    if ps == [] then []
    else Kept(ps[..|ps| - 1]) + (match ps[|ps| - 1] case Some(c) => [c] case None => [])
  }

  /** The 1-based positions of the failed parse results, in order. */
  function Rejected(ps: seq<Option<Card>>): seq<nat>
  {
    if ps == [] then []
    else Rejected(ps[..|ps| - 1]) + (if ps[|ps| - 1].None? then [|ps|] else [])
  }

  /** The cards of the well-formed lines, in line order. */
  function ParsedCards(lines: seq<string>): seq<Card>
  {
    Kept(ParseAll(lines))
  }

  /** The 1-based numbers of the malformed lines, in line order. */
  function RejectedLines(lines: seq<string>): seq<nat>
  {
    Rejected(ParseAll(lines))
  }

  /**
   * `read_dictionary` after the file is opened: for each line, counted from
   * 1, keep the card it parses to or report the line's number.
   */
  method ReadDictionary(lines: seq<string>) returns (cards: seq<Card>, rejects: seq<nat>)
    ensures cards == ParsedCards(lines) && rejects == RejectedLines(lines)
  {
    ghost var ps := ParseAll(lines);
    cards, rejects := [], [];
    var i := 0;
    while i < |lines|
      invariant i <= |lines|
      invariant cards == Kept(ps[..i]) && rejects == Rejected(ps[..i])
    {
      var parsed := ParseNewCard(lines[i]);
      i := i + 1;
      assert ps[..i][..i - 1] == ps[..i - 1] && ps[..i][i - 1] == parsed;
      match parsed
      case Some(c) =>
        cards := cards + [c];
      case None =>
        rejects := rejects + [i];
    }
    assert ps[..i] == ps;
  }

  /** Every parse result gives either a card or a report. */
  lemma {:induction false} KeptRejectedCount(ps: seq<Option<Card>>)
    ensures |Kept(ps)| + |Rejected(ps)| == |ps|
    decreases |ps|
  {
    if ps != [] {
      KeptRejectedCount(ps[..|ps| - 1]);
    }
  }

  /** Every line is either kept as a card or reported. */
  lemma ReadCounts(lines: seq<string>)
    ensures |ParsedCards(lines)| + |RejectedLines(lines)| == |lines|
  {
    KeptRejectedCount(ParseAll(lines));
  }

  /** The reports are positions of `ps`. */
  lemma {:induction false} RejectedBound(ps: seq<Option<Card>>)
    ensures forall i :: 0 <= i < |Rejected(ps)| ==> 1 <= Rejected(ps)[i] <= |ps|
    decreases |ps|
  {
    if ps != [] {
      RejectedBound(ps[..|ps| - 1]);
    }
  }

  /** The reports are exactly the positions of the failed parses. */
  lemma {:induction false} RejectedExact(ps: seq<Option<Card>>, k: nat)
    ensures k in Rejected(ps) <==> 1 <= k <= |ps| && ps[k - 1].None?
    decreases |ps|
  {
    if ps != [] {
      var front := ps[..|ps| - 1];
      RejectedExact(front, k);
      RejectedBound(front);
      if 1 <= k < |ps| {
        assert front[k - 1] == ps[k - 1];
      }
    }
  }

  /** The reported numbers are exactly those of the lines that do not parse. */
  lemma RejectedLinesExact(lines: seq<string>, k: nat)
    ensures k in RejectedLines(lines) <==> 1 <= k <= |lines| && ParseNewCard(lines[k - 1]).None?
  {
    var ps := ParseAll(lines);
    RejectedExact(ps, k);
    if 1 <= k <= |lines| {
      assert ps[k - 1] == ParseNewCard(lines[k - 1]);
    }
  }

  /** The reports increase strictly: each malformed line is reported once, in order. */
  lemma {:induction false} RejectedIncreasing(ps: seq<Option<Card>>)
    ensures forall i, j :: 0 <= i < j < |Rejected(ps)| ==> Rejected(ps)[i] < Rejected(ps)[j]
    decreases |ps|
  {
    if ps != [] {
      RejectedIncreasing(ps[..|ps| - 1]);
      RejectedBound(ps[..|ps| - 1]);
    }
  }

  /** The cards of two blocks of parse results are those of the first, then those of the second. */
  lemma {:induction false} KeptAppend(ps: seq<Option<Card>>, qs: seq<Option<Card>>)
    ensures Kept(ps + qs) == Kept(ps) + Kept(qs)
    decreases |qs|
  {
    if qs == [] {
      assert ps + qs == ps;
    } else {
      var n := |qs| - 1;
      KeptAppend(ps, qs[..n]);
      assert (ps + qs)[..|ps + qs| - 1] == ps + qs[..n];
    }
  }

  /** Reading two blocks of lines gives the cards of the first block, then those of the second. */
  lemma ParsedCardsAppend(a: seq<string>, b: seq<string>)
    ensures ParsedCards(a + b) == ParsedCards(a) + ParsedCards(b)
  {
    assert ParseAll(a + b) == ParseAll(a) + ParseAll(b) by {
      forall i | 0 <= i < |a + b|
        ensures ParseAll(a + b)[i] == (ParseAll(a) + ParseAll(b))[i]
      {
        if i < |a| {
          assert (a + b)[i] == a[i];
        } else {
          assert (a + b)[i] == b[i - |a|];
        }
      }
    }
    KeptAppend(ParseAll(a), ParseAll(b));
  }

  /** The lines `write_dictionary` writes: each card rendered, in order. */
  function Rendered(cards: seq<Card>): (lines: seq<string>)
    ensures |lines| == |cards|
  {
    seq(|cards|, i requires 0 <= i < |cards| => Render(cards[i]))
  }

  /** Parse results that all succeed give their cards and no reports. */
  lemma {:induction false} KeptAllSome(ps: seq<Option<Card>>, cards: seq<Card>)
    requires |ps| == |cards| && forall i :: 0 <= i < |ps| ==> ps[i] == Some(cards[i])
    ensures Kept(ps) == cards && Rejected(ps) == []
    decreases |ps|
  {
    if ps != [] {
      var n := |ps| - 1;
      KeptAllSome(ps[..n], cards[..n]);
      assert cards == cards[..n] + [cards[n]];
    }
  }

  /** The text `write_dictionary` writes: each card rendered and ended by a newline. */
  function FileText(cards: seq<Card>): (r: string)
    ensures r == [] <==> cards == []
    ensures r != [] ==> r[|r| - 1] == '\n'
  {
    Terminated(Rendered(cards))
  }

  /**
   * Reading back the file written for well-formed cards on one line each
   * gives one line per card, the cards themselves and no reports.
   */
  lemma DictionaryRoundTrip(cards: seq<Card>)
    requires forall i :: 0 <= i < |cards| ==> WellFormed(cards[i]) && OnOneLine(cards[i])
    ensures Lines(FileText(cards)) == Rendered(cards)
    ensures ParsedCards(Lines(FileText(cards))) == cards
    ensures RejectedLines(Lines(FileText(cards))) == []
  {
    var lines := Rendered(cards);
    forall i | 0 <= i < |lines|
      ensures OneLine(lines[i])
    {
      RenderOneLine(cards[i]);
    }
    LinesTerminated(lines);
    var ps := ParseAll(lines);
    forall i | 0 <= i < |ps|
      ensures ps[i] == Some(cards[i])
    {
      RenderParseRoundTrip(cards[i]);
    }
    KeptAllSome(ps, cards);
  }

  /** Parse results whose cards are all on one line keep only such cards. */
  lemma {:induction false} KeptOnOneLine(ps: seq<Option<Card>>)
    requires forall i :: 0 <= i < |ps| && ps[i].Some? ==> OnOneLine(ps[i].value)
    ensures forall i :: 0 <= i < |Kept(ps)| ==> OnOneLine(Kept(ps)[i])
    decreases |ps|
  {
    if ps != [] {
      KeptOnOneLine(ps[..|ps| - 1]);
    }
  }

  /** Every card read from a text lies on one line of it: no field holds a newline. */
  lemma ReadCardsOnOneLine(text: string)
    ensures var cards := ParsedCards(Lines(text));
      forall i :: 0 <= i < |cards| ==> OnOneLine(cards[i])
  {
    var lines := Lines(text);
    var ps := ParseAll(lines);
    forall i | 0 <= i < |ps| && ps[i].Some?
      ensures OnOneLine(ps[i].value)
    {
      ParseOneLine(lines[i]);
    }
    KeptOnOneLine(ps);
  }

  /**
   * Well-formed cards survive writing and reading the file exactly when
   * none of their fields holds a newline.
   */
  lemma FileRoundTrip(cards: seq<Card>)
    requires forall i :: 0 <= i < |cards| ==> WellFormed(cards[i])
    ensures ParsedCards(Lines(FileText(cards))) == cards
      <==> forall i :: 0 <= i < |cards| ==> OnOneLine(cards[i])
  {
    if forall i :: 0 <= i < |cards| ==> OnOneLine(cards[i]) {
      DictionaryRoundTrip(cards);
    } else {
      ReadCardsOnOneLine(FileText(cards));
    }
  }

  /**
   * The loop guard of `create`: another line is asked for while the raw line
   * read last, newline included, is longer than one byte.
   */
  predicate KeepsAsking(raw: string)
  {
    1 < Utf8Length(raw)
  }

  /**
   * The raw lines `create` reads from `script`: every line up to and
   * including the first one of at most one byte; at the end of input a
   * read gives the empty line, which also stops it.
   */
  function LinesRead(script: seq<string>): (read: seq<string>)
    ensures 1 <= |read| <= |script| + 1
    ensures !KeepsAsking(read[|read| - 1])
    ensures forall j :: 0 <= j < |read| - 1 ==> KeepsAsking(read[j]) && read[j] == script[j]
    decreases |script|
  {
    if script == [] then [""]
    else if !KeepsAsking(script[0]) then [script[0]]
    else [script[0]] + LinesRead(script[1..])
  }

  /** The cards `create` collects: those the trimmed lines it reads parse to. */
  function Authored(script: seq<string>): seq<Card>
  {
    ParsedCards(TrimAll(LinesRead(script)))
  }

  /** One more line read adds the card its trim parses to, if any. */
  lemma ParsedCardsTrimmedSnoc(read: seq<string>, raw: string)
    ensures ParsedCards(TrimAll(read + [raw])) == ParsedCards(TrimAll(read)) +
      (if ParseNewCard(Trim(raw)).Some? then [ParseNewCard(Trim(raw)).value] else [])
  {
    TrimAllSnoc(read, raw);
    ParseAllSnoc(TrimAll(read), Trim(raw));
    KeptSnoc(ParseAll(TrimAll(read)), ParseNewCard(Trim(raw)));
  }

  /** Parsing one more line adds its result at the end. */
  lemma ParseAllSnoc(lines: seq<string>, line: string)
    ensures ParseAll(lines + [line]) == ParseAll(lines) + [ParseNewCard(line)]
  {
    forall i | 0 <= i < |lines| + 1
      ensures ParseAll(lines + [line])[i] == (ParseAll(lines) + [ParseNewCard(line)])[i]
    {
      if i < |lines| {
        assert (lines + [line])[i] == lines[i];
      } else {
        assert (lines + [line])[i] == line;
      }
    }
  }

  /** One read of `create`: the next line of the script, or the empty line at its end. */
  lemma LinesReadStep(script: seq<string>, i: nat, read: seq<string>)
    requires i <= |script|
    ensures i < |script| && KeepsAsking(script[i]) ==>
      read + LinesRead(script[i..]) == (read + [script[i]]) + LinesRead(script[i + 1..])
    ensures i < |script| && !KeepsAsking(script[i]) ==> read + LinesRead(script[i..]) == read + [script[i]]
    ensures i == |script| ==> read + LinesRead(script[i..]) == read + [""]
  {
    if i < |script| {
      assert script[i..][0] == script[i] && script[i..][1..] == script[i + 1..];
    }
  }

  /** The cards of some parse results and one more. */
  lemma KeptSnoc(ps: seq<Option<Card>>, p: Option<Card>)
    ensures Kept(ps + [p]) == Kept(ps) + (if p.Some? then [p.value] else [])
  {
    assert (ps + [p])[..|ps|] == ps;
  }

  /** `create`: read lines until one is at most one byte long, keeping the cards they parse to. */
  method Create(script: seq<string>) returns (cards: seq<Card>)
    ensures cards == Authored(script)
  {
    cards := [];
    var input := "__";
    var i := 0;
    ghost var read: seq<string> := [];
    while KeepsAsking(input)
      invariant i <= |script|
      invariant cards == ParsedCards(TrimAll(read))
      invariant KeepsAsking(input) ==> read + LinesRead(script[i..]) == LinesRead(script)
      invariant !KeepsAsking(input) ==> read == LinesRead(script)
      decreases |script| - i + (if KeepsAsking(input) then 1 else 0)
    {
      LinesReadStep(script, i, read);
      if i < |script| {
        input := script[i];
        i := i + 1;
      } else {
        input := "";
      }
      var parsed := ParseNewCard(Trim(input));
      ParsedCardsTrimmedSnoc(read, input);
      read := read + [input];
      match parsed
      case Some(c) =>
        cards := cards + [c];
      case None =>
    }
  }

  /** Lines after the one that stops the loop are never read. */
  lemma {:induction false} LinesReadStops(script: seq<string>, k: nat)
    requires k < |script| && !KeepsAsking(script[k])
    requires forall j :: 0 <= j < k ==> KeepsAsking(script[j])
    ensures LinesRead(script) == script[..k + 1]
    decreases k
  {
    if k > 0 {
      var tail := script[1..];
      forall j | 0 <= j < k - 1
        ensures KeepsAsking(tail[j])
      {
        assert tail[j] == script[j + 1];
      }
      LinesReadStops(tail, k - 1);
      assert script[..k + 1] == [script[0]] + tail[..k];
    }
  }

  /** If no line stops the loop, every line is read and then the empty line at the end of input. */
  lemma {:induction false} LinesReadAll(script: seq<string>)
    requires forall j :: 0 <= j < |script| ==> KeepsAsking(script[j])
    ensures LinesRead(script) == script + [""]
    decreases |script|
  {
    if script != [] {
      LinesReadAll(script[1..]);
      assert script + [""] == [script[0]] + (script[1..] + [""]);
    }
  }

  /** Until the loop stops, authoring keeps exactly the cards a dictionary read of the trimmed lines would. */
  lemma AuthoredAsDictionary(script: seq<string>)
    requires forall j :: 0 <= j < |script| ==> KeepsAsking(script[j])
    ensures Authored(script) == ParsedCards(TrimAll(script))
  {
    LinesReadAll(script);
    ParsedCardsTrimmedSnoc(script, "");
    assert ParseNewCard(Trim("")) == None by {
      assert Trim("") == "";
    }
  }

  /** A first line that stops `create` is the only one it reads. */
  lemma LinesReadStopsAt(line: string, rest: seq<string>)
    requires !KeepsAsking(line)
    ensures LinesRead([line] + rest) == [line]
  {
    assert ([line] + rest)[0] == line;
  }

  /**
   * A line of at most one byte, such as a bare newline, ends authoring
   * and nothing after it is read; it is still parsed, so a lone comma gives
   * a card with an empty query and one empty answer.
   */
  lemma AuthoredShortLine(line: string, rest: seq<string>)
    requires !KeepsAsking(line)
    ensures Authored([line] + rest) == (if line == [Comma] then [Card("", [""])] else [])
  {
    LinesReadStopsAt(line, rest);
    ParsedCardsTrimmedSnoc([], line);
    assert [] + [line] == [line];
    assert ParsedCards(TrimAll([])) == [];
    ShortLineParse(line);
  }

  /** A line of at most one byte parses to a card only if it is a bare comma. */
  lemma ShortLineParse(line: string)
    requires !KeepsAsking(line)
    ensures ParseNewCard(Trim(line)) == if line == [Comma] then Some(Card("", [""])) else None
  {
    assert |line| <= 1;
    if line == [Comma] {
      assert Trim(line) == line by {
        TrimIdentity(line);
      }
      ParseTrailingComma([]);
      assert [] + [Comma] == line;
      assert Trim([]) == [];
    } else {
      assert Comma !in line by {
        if |line| == 1 {
          assert line == [line[0]];
        }
      }
      TrimKeepsAbsent(line, Comma);
    }
  }
}
