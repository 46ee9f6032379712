/**
wrapText of errors/formatter.go: greedy line filling, measured in bytes, on the sequence of words that
strings.Fields gives. No other way of breaking the words into lines that fit needs fewer lines.
 */
module LineFilling {
  import opened Text

  const SPACE := " "
  const NEWLINE := "\n"
  const DEFAULT_MAX_LINE_LENGTH := 80

  function Width(width: int): (w: nat)
    ensures w > 0
  {
    if width <= 0 then DEFAULT_MAX_LINE_LENGTH else width
  }

  /** How many bytes UTF-8 takes for a character: it has room for 7, 11, 16 and 21 bits. */
  function CharBytes(c: char): (n: nat)
    ensures 1 <= n <= 4
    ensures n >= 2 <==> c as int >= 128
    ensures n >= 3 <==> c as int >= 2048
    ensures n >= 4 <==> c as int >= 65536
  {
    var code := c as int;
    if code < 0x80 then 1 else if code < 0x800 then 2 else if code < 0x10000 then 3 else 4
  }

  /** Go's len of a string. */
  function Bytes(s: string): nat {
    if s == "" then 0 else CharBytes(s[0]) + Bytes(s[1..])
  }

  lemma {:induction false} BytesAppend(a: string, b: string)
    ensures Bytes(a + b) == Bytes(a) + Bytes(b)
  {
    if a == "" {
      assert a + b == b;
    } else {
      assert (a + b)[1..] == a[1..] + b;
      BytesAppend(a[1..], b);
    }
  }

  lemma BytesWithSpace(a: string, b: string)
    ensures Bytes(a + SPACE + b) == Bytes(a) + 1 + Bytes(b)
  {
    BytesAppend(a + SPACE, b);
    BytesAppend(a, SPACE);
    assert SPACE[1..] == "";
  }

  predicate Words(words: seq<string>) {
    forall w :: w in words ==> w != ""
  }

  /** A line may be longer than the width only if it is one word. */
  predicate Fits(line: seq<string>, width: nat) {
    line != [] && (|line| > 1 ==> Bytes(Join(line, SPACE)) <= width)
  }

  /** lines breaks words into consecutive lines that fit. */
  predicate Breaks(lines: seq<seq<string>>, words: seq<string>, width: nat) {
    (forall l :: l in lines ==> Fits(l, width)) && Flat(lines) == words
  }

  function Flat(lines: seq<seq<string>>): seq<string> {
    if lines == [] then [] else lines[0] + Flat(lines[1..])
  }

  function Texts(lines: seq<seq<string>>): (texts: seq<string>)
    ensures |texts| == |lines| && forall i :: 0 <= i < |lines| ==> texts[i] == Join(lines[i], SPACE)
  {
    seq(|lines|, i requires 0 <= i < |lines| => Join(lines[i], SPACE))
  }

  // ---------------------------------------------------------------- greedy filling

  /** The lines that come of rest when current is the line begun. */
  function From(current: seq<string>, rest: seq<string>, width: nat): seq<seq<string>>
    decreases |rest|
  {
    if rest == [] then [current]
    else if Bytes(Join(current + [rest[0]], SPACE)) > width then [current] + From([rest[0]], rest[1..], width)
    else From(current + [rest[0]], rest[1..], width)
  }

  function Greedy(words: seq<string>, width: nat): seq<seq<string>> {
    if words == [] then [] else From([words[0]], words[1..], width)
  }

  lemma {:induction false} JoinSnoc(line: seq<string>, word: string)
    requires line != []
    ensures Join(line + [word], SPACE) == Join(line, SPACE) + SPACE + word
  {
    JoinAppend(line, [word], SPACE);
  }

  lemma JoinNotEmpty(line: seq<string>)
    requires line != [] && line[0] != ""
    ensures Join(line, SPACE) != ""
  {
  }

  lemma TextsSnoc(lines: seq<seq<string>>, line: seq<string>)
    ensures Texts(lines + [line]) == Texts(lines) + [Join(line, SPACE)]
  {
  }

  lemma FromNext(done: seq<seq<string>>, current: seq<string>, rest: seq<string>, width: nat)
    requires current != [] && rest != []
    ensures var long := Bytes(Join(current, SPACE) + SPACE + rest[0]) > width;
            done + From(current, rest, width)
            == if long then done + [current] + From([rest[0]], rest[1..], width)
               else done + From(current + [rest[0]], rest[1..], width)
  {
    JoinSnoc(current, rest[0]);
    var next := From([rest[0]], rest[1..], width);
    assert done + ([current] + next) == done + [current] + next;
  }

  /**
  The text is the words broken into lines that fit, in order, and no other breaking has fewer lines. The lines
  fit in the requested width if it is positive, and else in 80 bytes; a line may be longer if it is one word.
   */
  method WrapText(words: seq<string>, requested: int) returns (text: string)
    requires Words(words)
    ensures var width: nat := if requested > 0 then requested else 80;
            var lines := Greedy(words, width);
            && text == Join(Texts(lines), "\n")
            && Breaks(lines, words, width)
            && (forall l :: l in lines && |l| > 1 ==> Bytes(Join(l, " ")) <= width)
            && forall other :: Breaks(other, words, width) ==> |lines| <= |other|
  {
    hide Join, Texts, Breaks, From, Bytes;
    var width := Width(requested);
    ghost var lines := Greedy(words, width);
    var texts: seq<string> := [];
    var currentLine := "";
    ghost var current: seq<string> := [];
    ghost var done: seq<seq<string>> := [];
    EmptyTexts();
    for i := 0 to |words|
      invariant currentLine == Join(current, SPACE) && texts == Texts(done)
      invariant if i == 0 then current == [] && done == [] else current != [] && current[0] != ""
      invariant i > 0 ==> done + From(current, words[i..], width) == lines
    {
      var word := words[i];
      assert word in words;
      assert words[i..][0] == word && words[i..][1..] == words[i + 1..];
      var testLine := if |currentLine| > 0 then currentLine + SPACE + word else word;
      OneWord(word);
      if i > 0 {
        JoinNotEmpty(current);
        JoinSnoc(current, word);
        FromNext(done, current, words[i..], width);
      }
      if Bytes(testLine) > width && |currentLine| > 0 {
        TextsSnoc(done, current);
        texts := texts + [currentLine];
        done := done + [current];
        currentLine := word;
        current := [word];
      } else {
        if i > 0 && |currentLine| > 0 {
          currentLine := currentLine + SPACE;
        }
        currentLine := currentLine + word;
        current := if i == 0 then [word] else current + [word];
      }
    }
    if words != [] {
      JoinNotEmpty(current);
      TextsSnoc(done, current);
      LastLine(current, width);
    }
    if |currentLine| > 0 {
      texts := texts + [currentLine];
    }
    text := Join(texts, NEWLINE);
    GreedyBreaks(words, width);
    LinesFit(lines, words, width);
    forall other | Breaks(other, words, width) ensures |lines| <= |other| {
      GreedyOptimal(words, other, width);
    }
  }

  lemma LinesFit(lines: seq<seq<string>>, words: seq<string>, width: nat)
    requires Breaks(lines, words, width)
    ensures forall l :: l in lines && |l| > 1 ==> Bytes(Join(l, " ")) <= width
  {
    hide Join, Bytes;
  }

  lemma LastLine(current: seq<string>, width: nat)
    ensures From(current, [], width) == [current]
  {
  }

  lemma EmptyTexts()
    ensures Texts([]) == [] && Join([], SPACE) == ""
  {
  }

  lemma OneWord(word: string)
    ensures Join([word], SPACE) == word
  {
  }

  // ---------------------------------------------------------------- the lines are a breaking

  lemma {:induction false} FromBreaks(current: seq<string>, rest: seq<string>, width: nat)
    requires Fits(current, width)
    ensures Breaks(From(current, rest, width), current + rest, width)
    decreases |rest|
  {
    if rest == [] {
      assert Flat([current]) == current by {
        assert [current][1..] == [];
      }
      assert current + rest == current;
    } else {
      var word, later := rest[0], rest[1..];
      if Bytes(Join(current + [word], SPACE)) > width {
        FromBreaks([word], later, width);
        var lines := From([word], later, width);
        assert ([current] + lines)[1..] == lines;
        assert [word] + later == rest;
      } else {
        FromBreaks(current + [word], later, width);
        assert current + [word] + later == current + rest;
      }
    }
  }

  lemma GreedyBreaks(words: seq<string>, width: nat)
    ensures Breaks(Greedy(words, width), words, width)
  {
    if words != [] {
      FromBreaks([words[0]], words[1..], width);
      assert [words[0]] + words[1..] == words;
    }
  }

  // ---------------------------------------------------------------- and there is none with fewer

  /** How many lines come of rest when the line begun is length long. */
  function Count(length: nat, rest: seq<string>, width: nat): nat
    decreases |rest|
  {
    if rest == [] then 1
    else if length + 1 + Bytes(rest[0]) > width then 1 + Count(Bytes(rest[0]), rest[1..], width)
    else Count(length + 1 + Bytes(rest[0]), rest[1..], width)
  }

  lemma {:induction false} FromCount(current: seq<string>, rest: seq<string>, width: nat)
    requires current != []
    ensures |From(current, rest, width)| == Count(Bytes(Join(current, SPACE)), rest, width)
    decreases |rest|
  {
    if rest != [] {
      JoinSnoc(current, rest[0]);
      OneWord(rest[0]);
      BytesWithSpace(Join(current, SPACE), rest[0]);
      hide Join, Bytes;
      FromCount([rest[0]], rest[1..], width);
      FromCount(current + [rest[0]], rest[1..], width);
    }
  }

  /** A shorter line begun never costs lines, and no line begun costs more than one. */
  lemma {:induction false} CountMonotone(a: nat, b: nat, rest: seq<string>, width: nat)
    ensures a <= b ==> Count(a, rest, width) <= Count(b, rest, width)
    ensures Count(a, rest, width) <= 1 + Count(b, rest, width)
    decreases |rest|
  {
    if rest != [] {
      var w, later := Bytes(rest[0]), rest[1..];
      CountMonotone(a + 1 + w, b + 1 + w, later, width);
      CountMonotone(a + 1 + w, w, later, width);
      CountMonotone(w, b + 1 + w, later, width);
    }
  }

  /** Words that fit on the line begun are put there. */
  lemma {:induction false} FillsLine(current: seq<string>, more: seq<string>, rest: seq<string>, width: nat)
    requires current != [] && (more == [] || Bytes(Join(current + more, SPACE)) <= width)
    ensures From(current, more + rest, width) == From(current + more, rest, width)
    decreases |more|
  {
    if more == [] {
      assert more + rest == rest && current + more == current;
    } else {
      var word, later := more[0], more[1..];
      assert current + more == (current + [word]) + later;
      if later != [] {
        JoinAppend(current + [word], later, SPACE);
        BytesWithSpace(Join(current + [word], SPACE), Join(later, SPACE));
      } else {
        assert current + more == current + [word];
      }
      assert Bytes(Join(current + [word], SPACE)) <= Bytes(Join(current + more, SPACE));
      FillsLine(current + [word], later, rest, width);
      assert (more + rest)[1..] == later + rest;
    }
  }

  /** Filling up a line begun takes at most one line more than beginning with the next word. */
  lemma FreshLine(line: seq<string>, rest: seq<string>, width: nat)
    requires line != []
    ensures |From(line, rest, width)| <= 1 + |Greedy(rest, width)|
  {
    hide Join, Bytes, From;
    FromCount(line, rest, width);
    if rest != [] {
      var length, w := Bytes(Join(line, SPACE)), Bytes(rest[0]);
      OneWord(rest[0]);
      FromCount([rest[0]], rest[1..], width);
      CountMonotone(length + 1 + w, w, rest[1..], width);
    }
  }

  lemma {:induction false} GreedyOptimal(words: seq<string>, other: seq<seq<string>>, width: nat)
    requires Breaks(other, words, width)
    ensures |Greedy(words, width)| <= |other|
    decreases |other|
  {
    hide Join, Bytes, From;
    if other != [] {
      var line, later := other[0], other[1..];
      var rest := Flat(later);
      assert line in other;
      assert words == line + rest;
      assert words[1..] == line[1..] + rest && [line[0]] + line[1..] == line;
      FillsLine([line[0]], line[1..], rest, width);
      FreshLine(line, rest, width);
      GreedyOptimal(rest, later, width);
    }
  }
}
