/**
 * A card is a query with the answers accepted for it. This module holds the
 * line format of a card (parse and render) and the test whether a reply
 * answers a card.
 */
module Cards {
  import opened Wrappers
  import opened Text

  /** One query and its accepted answers; `make_card` is this constructor. */
  datatype Card = Card(query: string, answers: seq<string>)

  /** The field separator of the line format. */
  const Comma: char := ','

  /** The `Display` form of a card: `query, answer1, answer2, ...`. */
  function Render(c: Card): string
  {
    c.query + ", " + Join(c.answers, ", ")
  }

  /** Every field trimmed, in order. */
  function TrimAll(fields: seq<string>): (r: seq<string>)
    ensures |r| == |fields|
  {
    seq(|fields|, i requires 0 <= i < |fields| => Trim(fields[i]))
  }

  /** Trimming one more field adds its trim at the end. */
  lemma TrimAllSnoc(fields: seq<string>, f: string)
    ensures TrimAll(fields + [f]) == TrimAll(fields) + [Trim(f)]
  {
    forall i | 0 <= i < |fields| + 1
      ensures TrimAll(fields + [f])[i] == (TrimAll(fields) + [Trim(f)])[i]
    {
      if i < |fields| {
        assert (fields + [f])[i] == fields[i];
      } else {
        assert (fields + [f])[i] == f;
      }
    }
  }

  /**
   * `parse_new_card`: the trimmed first comma-separated field is the query,
   * the other fields trimmed are the answers; a line without answers is
   * rejected, so a line is accepted exactly when it holds a comma.
   */
  function ParseNewCard(input: string): (r: Option<Card>)
    ensures r.Some? <==> Comma in input
  {
    var terms := Split(input, Comma);
    var answers := TrimAll(terms[1..]);
    if 0 < |answers| then
      Some(Card(Trim(terms[0]), answers))
    else
      None
  }

  /**
   * The fields of an accepted line: the query is the text before the first
   * comma, the answers come from the text after it, one per comma.
   */
  lemma ParseNewCardFields(input: string)
    requires Comma in input
    ensures |ParseNewCard(input).value.answers| == Count(input, Comma)
    ensures ParseNewCard(input).value.query == Trim(input[..FirstIndex(input, Comma)])
    ensures ParseNewCard(input).value.answers == TrimAll(Split(input[FirstIndex(input, Comma) + 1..], Comma))
  {
    SplitCount(input, Comma);
    SplitFirst(input, Comma);
  }

  /** A field the line format carries unchanged: no comma, nothing for `trim` to drop. */
  predicate WellFormedField(s: string)
  {
    Comma !in s && Trimmed(s)
  }

  /** A card that survives rendering and parsing: well-formed fields and at least one answer. */
  predicate WellFormed(c: Card)
  {
    WellFormedField(c.query) && |c.answers| >= 1
    && forall i :: 0 <= i < |c.answers| ==> WellFormedField(c.answers[i])
  }

  /** Every field with a space in front. */
  function Spaced(fields: seq<string>): (r: seq<string>)
    ensures |r| == |fields|
  {
    seq(|fields|, i requires 0 <= i < |fields| => " " + fields[i])
  }

  /** `, ` between the answers is a comma between the space-prefixed answers. */
  lemma {:induction false} JoinSpaced(answers: seq<string>)
    requires |answers| >= 1
    ensures ", " + Join(answers, ", ") == [Comma] + Join(Spaced(answers), [Comma])
    decreases |answers|
  {
    var a := answers[0];
    assert ", " == [Comma] + " ";
    if |answers| > 1 {
      var rest := answers[1..];
      JoinSpaced(rest);
      assert Spaced(answers)[1..] == Spaced(rest);
      calc {
        ", " + Join(answers, ", ");
        ", " + (a + ", " + Join(rest, ", "));
        ([Comma] + " " + a) + (", " + Join(rest, ", "));
        ([Comma] + " " + a) + ([Comma] + Join(Spaced(rest), [Comma]));
        [Comma] + ((" " + a) + [Comma] + Join(Spaced(rest), [Comma]));
        [Comma] + Join(Spaced(answers), [Comma]);
      }
    }
  }

  /** A rendered card is its query and space-prefixed answers joined by commas. */
  lemma RenderAsFields(c: Card)
    requires |c.answers| >= 1
    ensures Render(c) == Join([c.query] + Spaced(c.answers), [Comma])
  {
    JoinSpaced(c.answers);
    var fields := [c.query] + Spaced(c.answers);
    assert fields[1..] == Spaced(c.answers);
    assert |fields| > 1;
    calc {
      Join(fields, [Comma]);
      c.query + [Comma] + Join(Spaced(c.answers), [Comma]);
      c.query + ([Comma] + Join(Spaced(c.answers), [Comma]));
      c.query + (", " + Join(c.answers, ", "));
      Render(c);
    }
  }

  /** The parse of a line whose fields are known. */
  lemma ParseOfFields(input: string, query: string, rest: seq<string>)
    requires Split(input, Comma) == [query] + rest && |rest| >= 1
    ensures ParseNewCard(input) == Some(Card(Trim(query), TrimAll(rest)))
  {
    assert Split(input, Comma)[1..] == rest;
  }

  /** Trimming space-prefixed trimmed answers gives the answers. */
  lemma TrimAllSpaced(answers: seq<string>)
    requires forall i :: 0 <= i < |answers| ==> Trimmed(answers[i])
    ensures TrimAll(Spaced(answers)) == answers
  {
    forall i | 0 <= i < |answers|
      ensures TrimAll(Spaced(answers))[i] == answers[i]
    {
      TrimLeadingSpace(answers[i]);
    }
  }

  /** Fields without white space at their ends are their own trims. */
  lemma TrimAllTrimmed(fields: seq<string>)
    requires forall i :: 0 <= i < |fields| ==> Trimmed(fields[i])
    ensures TrimAll(fields) == fields
  {
    forall i | 0 <= i < |fields|
      ensures TrimAll(fields)[i] == fields[i]
    {
      TrimIdentity(fields[i]);
    }
  }

  /** Parsing a rendered well-formed card gives back the card. */
  lemma RenderParseRoundTrip(c: Card)
    requires WellFormed(c)
    ensures ParseNewCard(Render(c)) == Some(c)
  {
    var line, fields := Render(c), [c.query] + Spaced(c.answers);
    assert Split(line, Comma) == fields by {
      RenderAsFields(c);
      forall i | 0 <= i < |fields|
        ensures Comma !in fields[i]
      {
        if i > 0 {
          assert fields[i] == " " + c.answers[i - 1];
        }
      }
      SplitJoin(fields, Comma);
    }
    ParseOfFields(line, c.query, Spaced(c.answers));
    assert TrimAll(Spaced(c.answers)) == c.answers by {
      TrimAllSpaced(c.answers);
    }
    assert Trim(c.query) == c.query by {
      TrimIdentity(c.query);
    }
  }

  /** A card no newline splits: none of its fields holds one. */
  predicate OnOneLine(c: Card)
  {
    '\n' !in c.query && forall i :: 0 <= i < |c.answers| ==> '\n' !in c.answers[i]
  }

  /** A well-formed card on one line renders to a line that reading lines gives back whole. */
  lemma RenderOneLine(c: Card)
    requires WellFormed(c) && OnOneLine(c)
    ensures OneLine(Render(c))
  {
    var line, fields := Render(c), [c.query] + Spaced(c.answers);
    RenderAsFields(c);
    forall i | 0 <= i < |fields|
      ensures '\n' !in fields[i]
    {
      if i > 0 {
        assert fields[i] == " " + c.answers[i - 1];
      }
    }
    JoinKeepsAbsent(fields, [Comma], '\n');
    var last, a := fields[|fields| - 1], c.answers[|c.answers| - 1];
    assert last == " " + a;
    JoinEndsWithLast(fields, [Comma]);
    assert line[|line| - 1] == last[|last| - 1];
    assert IsWhitespace('\r');
    if a != [] {
      assert last[|last| - 1] == a[|a| - 1];
      assert !IsWhitespace(a[|a| - 1]);
    }
  }

  /** A line without a newline parses to a card on one line. */
  lemma ParseOneLine(line: string)
    requires '\n' !in line && Comma in line
    ensures OnOneLine(ParseNewCard(line).value)
  {
    var terms := Split(line, Comma);
    var card := ParseNewCard(line).value;
    assert card.query == Trim(terms[0]) && card.answers == TrimAll(terms[1..]);
    SplitKeepsAbsent(line, Comma, '\n');
    TrimKeepsAbsent(terms[0], '\n');
    forall i | 0 <= i < |card.answers|
      ensures '\n' !in card.answers[i]
    {
      assert card.answers[i] == Trim(terms[i + 1]);
      TrimKeepsAbsent(terms[i + 1], '\n');
    }
  }

  /** What the parser produces is well formed, so rendering and parsing it again changes nothing. */
  lemma ParseRenderParse(input: string)
    requires ParseNewCard(input).Some?
    ensures WellFormed(ParseNewCard(input).value)
    ensures ParseNewCard(Render(ParseNewCard(input).value)) == ParseNewCard(input)
  {
    var c := ParseNewCard(input).value;
    var terms := Split(input, Comma);
    TrimKeepsAbsent(terms[0], Comma);
    forall i | 0 <= i < |c.answers|
      ensures WellFormedField(c.answers[i])
    {
      assert terms[1..][i] == terms[i + 1];
      TrimKeepsAbsent(terms[i + 1], Comma);
    }
    RenderParseRoundTrip(c);
  }

  /** `char::to_ascii_lowercase`: `A`..`Z` become `a`..`z`; every other character is kept. */
  function AsciiLower(c: char): (r: char)
    ensures 'A' <= c <= 'Z' ==> 'a' <= r <= 'z' && r as int - c as int == 32
    ensures !('A' <= c <= 'Z') ==> r == c
  {
    if 'A' <= c <= 'Z' then (c as int + 32) as char else c
  }

  /** `str::eq_ignore_ascii_case`: equal lengths and equal characters after ASCII lower-casing. */
  predicate EqIgnoreAsciiCase(a: string, b: string)
  {
    |a| == |b| && forall i :: 0 <= i < |a| ==> AsciiLower(a[i]) == AsciiLower(b[i])
  }

  /** The ASCII lower-case form of a string. */
  function LowerAll(s: string): (r: string)
    ensures |r| == |s|
  {
    seq(|s|, i requires 0 <= i < |s| => AsciiLower(s[i]))
  }

  /** Ignoring ASCII case is comparing the lower-case forms. */
  lemma EqIgnoreAsciiCaseIsLowerEq(a: string, b: string)
    ensures EqIgnoreAsciiCase(a, b) <==> LowerAll(a) == LowerAll(b)
  {
    if LowerAll(a) == LowerAll(b) {
      forall i | 0 <= i < |a|
        ensures AsciiLower(a[i]) == AsciiLower(b[i])
      {
        assert LowerAll(a)[i] == LowerAll(b)[i];
      }
    }
  }

  /** A character outside ASCII matches only itself. */
  lemma NonAsciiComparedExactly(x: char, y: char)
    requires x as int >= 128
    ensures AsciiLower(x) == AsciiLower(y) <==> x == y
  {
  }

  /**
   * `iter().find` with `eq_ignore_ascii_case`: the first of the answers that
   * matches the reply, if any.
   */
  function FindAnswer(answers: seq<string>, reply: string): (r: Option<nat>)
    ensures r.Some? ==> r.value < |answers| && EqIgnoreAsciiCase(answers[r.value], reply)
    ensures r.Some? ==> forall j :: 0 <= j < r.value ==> !EqIgnoreAsciiCase(answers[j], reply)
    ensures r.None? ==> forall j :: 0 <= j < |answers| ==> !EqIgnoreAsciiCase(answers[j], reply)
    decreases |answers|
  {
    if |answers| == 0 then None
    else if EqIgnoreAsciiCase(answers[0], reply) then Some(0)
    else match FindAnswer(answers[1..], reply)
      case None => None
      case Some(k) => Some(k + 1)
  }

  /** `is_answer_for_card`: some answer of the card equals the reply up to ASCII case. */
  function IsAnswerForCard(reply: string, c: Card): (b: bool)
    ensures b <==> exists i :: 0 <= i < |c.answers| && EqIgnoreAsciiCase(c.answers[i], reply)
  {
    FindAnswer(c.answers, reply).Some?
  }

  /** Any answer of a card, written exactly, is accepted. */
  lemma ExactAnswerAccepted(c: Card, i: nat)
    requires i < |c.answers|
    ensures IsAnswerForCard(c.answers[i], c)
  {
    assert EqIgnoreAsciiCase(c.answers[i], c.answers[i]);
  }

  /** `cat, gato, felino` parses to the query `cat` with two answers and renders back to itself. */
  lemma ParseExample()
    ensures Render(Card("cat", ["gato", "felino"])) == "cat, gato, felino"
    ensures ParseNewCard("cat, gato, felino") == Some(Card("cat", ["gato", "felino"]))
  {
    var c := Card("cat", ["gato", "felino"]);
    assert Join(c.answers, ", ") == "gato, felino";
    assert Render(c) == "cat, gato, felino";
    assert WellFormedField("cat") && WellFormedField("gato") && WellFormedField("felino");
    RenderParseRoundTrip(c);
  }

  /** A line without a comma is rejected. */
  lemma ParseNoCommaExample()
    ensures ParseNewCard("onlyquery") == None
  {
    assert Comma !in "onlyquery";
  }

  /** A comma-free query followed by a comma gives one empty answer. */
  lemma ParseTrailingComma(q: string)
    requires Comma !in q
    ensures ParseNewCard(q + [Comma]) == Some(Card(Trim(q), [""]))
  {
    var line := q + [Comma];
    assert FirstIndex(line, Comma) == |q| by {
      assert line[..|q|] == q && line[|q|] == Comma;
      FirstIndexUnique(line, Comma, |q|);
    }
    ParseNewCardFields(line);
    assert line[|q| + 1..] == [] && line[..|q|] == q;
    EmptyAnswers();
  }

  /** Nothing after the comma is one empty answer. */
  lemma EmptyAnswers()
    ensures TrimAll(Split([], Comma)) == [[]]
  {
    assert Split([], Comma) == [[]];
    TrimAllTrimmed([[]]);
  }

  /** A reply matches an answer in any ASCII case, but a prefix of it does not. */
  lemma MatchExamples()
    ensures IsAnswerForCard("PARIS", Card("France", ["Paris"]))
    ensures !IsAnswerForCard("Pari", Card("France", ["Paris"]))
  {
    assert EqIgnoreAsciiCase("Paris", "PARIS");
  }
}
