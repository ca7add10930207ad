/** `wordWrap`: greedy word wrapping of a help description. A text that fits
    is one line; otherwise it is split on single spaces and the words are
    packed greedily, a word going onto the current line when the line with it
    still fits, and opening a new line otherwise. */
module Wrap {
  import opened Text

  /** The words of all groups, in order. */
  function Flatten(groups: seq<seq<string>>): seq<string>
  {
    if |groups| == 0 then [] else groups[0] + Flatten(groups[1..])
  }

  /** Each group of words laid out as one line, words separated by one space. */
  function Lines(groups: seq<seq<string>>): seq<string>
  {
    seq(|groups|, i requires 0 <= i < |groups| => Join(" ", groups[i]))
  }

  /** No word contains a space. */
  predicate NoSpaces(words: seq<string>)
  {
    forall i :: 0 <= i < |words| ==> ' ' !in words[i]
  }

  /** A line of words fits in `max` columns, or it holds at most one word. */
  predicate Fits(line: seq<string>, max: int)
  {
    |line| <= 1 || TotalLength(line) + |line| - 1 <= max
  }

  /** `word` would not fit after a space at the end of `line`: its length,
      plus the lengths of the words on the line, plus one space per word on
      the line, exceeds `max`. This is the test that closes a line. */
  predicate Overflows(line: seq<string>, word: string, max: int)
  {
    |word| + TotalLength(line) + |line| > max
  }

  /** The greedy loop of `wordWrap`: `line` holds the words of the line being
      built. A word goes onto it when its length, plus the lengths of the words
      already there, plus one space per word already there, is at most `max`;
      otherwise the line is emitted and the word opens the next one. The last
      line is emitted when the words run out. */
  function Pack(words: seq<string>, max: int, line: seq<string>): seq<seq<string>>
    decreases |words|
  {
    if |words| == 0 then [line]
    else if Overflows(line, words[0], max) then
      [line] + Pack(words[1..], max, [words[0]])
    else
      Pack(words[1..], max, line + [words[0]])
  }

  /** `wordWrap`: a text that fits, or that has no space to break at, is one
      line; otherwise its words are packed greedily. */
  function WordWrap(text: string, max: int): (r: seq<string>)
    ensures |text| <= max ==> r == [text]
    ensures ' ' !in text ==> r == [text]
  {
    if |text| <= max then [text]
    else
      var words := Split(text);
      SplitCount(text);
      if |words| <= 1 then words
      else Lines(Pack(words, max, []))
  }

  /** The greedy branch is taken and the first word alone is longer than `max`:
      the case in which `wordWrap` emits an empty first line. */
  predicate StartsWithOverlongWord(text: string, max: int)
  {
    |text| > max && ' ' in text && |Split(text)[0]| > max
  }

  /** Packing loses, duplicates and reorders no word. */
  lemma {:induction false} PackKeepsWords(words: seq<string>, max: int, line: seq<string>)
    ensures Flatten(Pack(words, max, line)) == line + words
    decreases |words|
  {
    var groups := Pack(words, max, line);
    if |words| == 0 {
      assert groups == [line];
      assert groups[1..] == [];
      assert line + words == line;
    } else {
      var w := words[0];
      assert words == [w] + words[1..];
      if Overflows(line, w, max) {
        var rest := Pack(words[1..], max, [w]);
        PackKeepsWords(words[1..], max, [w]);
        assert groups[0] == line && groups[1..] == rest;
      } else {
        PackKeepsWords(words[1..], max, line + [w]);
      }
    }
  }

  /** The shape of the packing: the line being built opens the first group;
      every later group is non-empty; starting from an empty line, the first
      group is empty exactly when the first word alone exceeds `max`. */
  lemma {:induction false} PackShape(words: seq<string>, max: int, line: seq<string>)
    ensures |Pack(words, max, line)| >= 1
    ensures |line| <= |Pack(words, max, line)[0]| && Pack(words, max, line)[0][..|line|] == line
    ensures forall i :: 1 <= i < |Pack(words, max, line)| ==> |Pack(words, max, line)[i]| >= 1
    ensures line == [] && |words| >= 1 ==> (Pack(words, max, line)[0] == [] <==> |words[0]| > max)
    decreases |words|
  {
    var groups := Pack(words, max, line);
    if |words| > 0 {
      var w := words[0];
      if Overflows(line, w, max) {
        PackShape(words[1..], max, [w]);
        assert groups[1..] == Pack(words[1..], max, [w]);
      } else {
        PackShape(words[1..], max, line + [w]);
        assert (line + [w])[..|line|] == line;
        assert groups[0][..|line|] == groups[0][..|line| + 1][..|line|];
      }
    }
  }

  /** Every packed line fits in `max` columns, unless it holds a single word. */
  lemma {:induction false} PackLinesFit(words: seq<string>, max: int, line: seq<string>)
    requires Fits(line, max)
    ensures forall i :: 0 <= i < |Pack(words, max, line)| ==> Fits(Pack(words, max, line)[i], max)
    decreases |words|
  {
    if |words| > 0 {
      var w := words[0];
      if Overflows(line, w, max) {
        PackLinesFit(words[1..], max, [w]);
        var groups := Pack(words, max, line);
        assert groups[1..] == Pack(words[1..], max, [w]);
      } else {
        TotalLengthSnoc(line, w);
        PackLinesFit(words[1..], max, line + [w]);
      }
    }
  }

  /** Greediness: a line was closed only because the first word of the next
      line did not fit onto it. */
  lemma {:induction false} PackIsGreedy(words: seq<string>, max: int, line: seq<string>)
    ensures forall i :: 1 <= i < |Pack(words, max, line)| ==>
      |Pack(words, max, line)[i]| >= 1 && Overflows(Pack(words, max, line)[i - 1], Pack(words, max, line)[i][0], max)
    decreases |words|
  {
    if |words| > 0 {
      var w := words[0];
      var groups := Pack(words, max, line);
      if Overflows(line, w, max) {
        var rest := Pack(words[1..], max, [w]);
        PackIsGreedy(words[1..], max, [w]);
        PackShape(words[1..], max, [w]);
        assert groups == [line] + rest;
        assert rest[0][..1] == [w];
        forall i | 1 <= i < |groups|
          ensures |groups[i]| >= 1 && Overflows(groups[i - 1], groups[i][0], max)
        {
          assert groups[i] == rest[i - 1];
          if i > 1 {
            assert groups[i - 1] == rest[i - 2];
          }
        }
      } else {
        PackIsGreedy(words[1..], max, line + [w]);
      }
    }
  }

  /** Packing space-free words gives lines of space-free words. */
  lemma {:induction false} PackKeepsNoSpaces(words: seq<string>, max: int, line: seq<string>)
    requires NoSpaces(words) && NoSpaces(line)
    ensures forall i :: 0 <= i < |Pack(words, max, line)| ==> NoSpaces(Pack(words, max, line)[i])
    decreases |words|
  {
    if |words| > 0 {
      var w := words[0];
      assert NoSpaces(words[1..]) by {
        forall i | 0 <= i < |words[1..]| ensures ' ' !in words[1..][i] {
          assert words[1..][i] == words[i + 1];
        }
      }
      if Overflows(line, w, max) {
        PackKeepsNoSpaces(words[1..], max, [w]);
        var groups := Pack(words, max, line);
        assert groups[1..] == Pack(words[1..], max, [w]);
      } else {
        assert NoSpaces(line + [w]) by {
          forall i | 0 <= i < |line + [w]| ensures ' ' !in (line + [w])[i] {
            if i < |line| { assert (line + [w])[i] == line[i]; }
          }
        }
        PackKeepsNoSpaces(words[1..], max, line + [w]);
      }
    }
  }

  /** Joining the lines of non-empty groups with single spaces is joining all
      their words with single spaces. */
  lemma {:induction false} JoinLines(groups: seq<seq<string>>)
    requires |groups| >= 1
    requires forall i :: 0 <= i < |groups| ==> |groups[i]| >= 1
    ensures Join(" ", Lines(groups)) == Join(" ", Flatten(groups))
    decreases |groups|
  {
    var g := groups[0];
    var rest := groups[1..];
    if |groups| == 1 {
      assert Lines(groups) == [Join(" ", g)];
      assert Flatten(groups) == g + Flatten([]);
      assert g + [] == g;
    } else {
      JoinLines(rest);
      assert Lines(groups) == [Join(" ", g)] + Lines(rest);
      assert Lines(groups)[1..] == Lines(rest);
      assert |Flatten(rest)| >= 1 by {
        assert Flatten(rest) == rest[0] + Flatten(rest[1..]);
      }
      JoinAppend(" ", g, Flatten(rest));
    }
  }

  /** A line longer than `max` is a single word: it contains no space. */
  lemma WrapLongLineIsOneWord(text: string, max: int)
    ensures forall i :: 0 <= i < |WordWrap(text, max)| ==> |WordWrap(text, max)[i]| <= max || ' ' !in WordWrap(text, max)[i]
  {
    var r := WordWrap(text, max);
    var words := Split(text);
    SplitCount(text);
    if |text| > max && |words| > 1 {
      var groups := Pack(words, max, []);
      PackLinesFit(words, max, []);
      PackKeepsNoSpaces(words, max, []);
      forall i | 0 <= i < |r| ensures |r[i]| <= max || ' ' !in r[i] {
        var g := groups[i];
        assert r[i] == Join(" ", g);
        JoinShape(" ", g);
        if |g| == 1 {
          assert ' ' !in g[0];
        }
      }
    }
  }

  /** Rejoining packed lines with single spaces gives the words joined with
      single spaces, after an empty first line when the first word alone
      exceeds `max`. */
  lemma PackRejoins(words: seq<string>, max: int)
    requires |words| >= 1
    ensures |words[0]| > max ==>
      |Lines(Pack(words, max, []))| >= 2 && Lines(Pack(words, max, []))[0] == "" &&
      Join(" ", Lines(Pack(words, max, []))[1..]) == Join(" ", words)
    ensures |words[0]| <= max ==> Join(" ", Lines(Pack(words, max, []))) == Join(" ", words)
  {
    var groups := Pack(words, max, []);
    PackKeepsWords(words, max, []);
    PackShape(words, max, []);
    assert [] + words == words;
    if |words[0]| > max {
      assert groups[0] == [];
      assert Flatten(groups) == [] + Flatten(groups[1..]);
      assert Flatten(groups[1..]) == words;
      forall j | 0 <= j < |groups[1..]| ensures |groups[1..][j]| >= 1 {
        assert groups[1..][j] == groups[j + 1];
      }
      JoinLines(groups[1..]);
      assert Lines(groups)[1..] == Lines(groups[1..]);
    } else {
      JoinLines(groups);
    }
  }

  /** Rejoining the lines with single spaces gives the text back, except that
      when the first word alone is longer than `max` an empty first line comes
      before them. */
  lemma WrapRejoins(text: string, max: int)
    ensures StartsWithOverlongWord(text, max) ==>
      |WordWrap(text, max)| >= 2 && WordWrap(text, max)[0] == "" && Join(" ", WordWrap(text, max)[1..]) == text
    ensures !StartsWithOverlongWord(text, max) ==> Join(" ", WordWrap(text, max)) == text
  {
    var words := Split(text);
    SplitCount(text);
    JoinOfSplit(text);
    if |text| > max && |words| > 1 {
      assert ' ' in text;
      PackRejoins(words, max);
    }
  }

  /** Greediness of the wrapped lines: the first word of each line would not
      have fitted, after a space, on the line before it. */
  lemma WrapIsGreedy(text: string, max: int)
    ensures forall i :: 0 <= i < |WordWrap(text, max)| - 1 ==>
      |WordWrap(text, max)[i]| + 1 + |Split(WordWrap(text, max)[i + 1])[0]| > max
  {
    var r := WordWrap(text, max);
    var words := Split(text);
    SplitCount(text);
    if |text| > max && |words| > 1 {
      var groups := Pack(words, max, []);
      PackIsGreedy(words, max, []);
      PackKeepsNoSpaces(words, max, []);
      forall i | 0 <= i < |r| - 1 ensures |r[i]| + 1 + |Split(r[i + 1])[0]| > max {
        var g := groups[i];
        var next := groups[i + 1];
        assert Overflows(g, next[0], max);
        JoinShape(" ", g);
        SplitOfJoin(next);
        assert r[i + 1] == Join(" ", next);
      }
    }
  }

  /** The two words of the example text. */
  lemma SplitExample()
    ensures Split("abcdef gh") == ["abcdef", "gh"]
  {
    var words := ["abcdef", "gh"];
    assert Join(" ", words) == "abcdef gh" by {
      assert words[1..] == ["gh"];
    }
    SplitOfJoin(words);
  }

  /** The packing of the example words at width 3. */
  lemma PackExample()
    ensures Pack(["abcdef", "gh"], 3, []) == [[], ["abcdef"], ["gh"]]
  {
  }

  /** A concrete input on which `wordWrap` emits an empty first line: the
      first word is longer than `max`, so the still-empty line is closed. */
  lemma EmptyFirstLineExample()
    ensures WordWrap("abcdef gh", 3) == ["", "abcdef", "gh"]
  {
    SplitExample();
    PackExample();
    var groups: seq<seq<string>> := [[], ["abcdef"], ["gh"]];
    var lines := Lines(groups);
    assert lines[0] == "" && lines[1] == "abcdef" && lines[2] == "gh";
  }

  /** `wordWrap` as evidently intended: the first word always goes onto the
      first line, so no empty line is emitted in front of the text, and
      rejoining the lines with single spaces always gives the text back. */
  function WordWrapFixed(text: string, max: int): (r: seq<string>)
    ensures |text| <= max ==> r == [text]
    ensures ' ' !in text ==> r == [text]
    ensures Join(" ", r) == text
  {
    if |text| <= max then [text]
    else
      var words := Split(text);
      SplitCount(text);
      JoinOfSplit(text);
      if |words| <= 1 then words
      else
        var groups := Pack(words[1..], max, [words[0]]);
        PackKeepsWords(words[1..], max, [words[0]]);
        PackShape(words[1..], max, [words[0]]);
        assert [words[0]] + words[1..] == words;
        JoinLines(groups);
        Lines(groups)
  }

  /** The corrected wrap differs from `wordWrap` only by the empty first line. */
  lemma FixedDropsEmptyFirstLine(text: string, max: int)
    ensures StartsWithOverlongWord(text, max) ==> WordWrap(text, max) == [""] + WordWrapFixed(text, max)
    ensures !StartsWithOverlongWord(text, max) ==> WordWrap(text, max) == WordWrapFixed(text, max)
  {
    var words := Split(text);
    SplitCount(text);
    if |text| > max && |words| > 1 {
      assert ' ' in text;
      var groups := Pack(words, max, []);
      var fixed := Pack(words[1..], max, [words[0]]);
      assert [] + [words[0]] == [words[0]];
      if |words[0]| > max {
        assert groups == [[]] + fixed;
        assert Lines(groups) == [""] + Lines(fixed);
      } else {
        assert groups == fixed;
      }
    }
  }

  /** The loop of `wordWrap`, keeping the running length of the current line
      beside it; it computes `WordWrap`. */
  method WordWrapLoop(text: string, max: int) returns (lines: seq<string>)
    ensures lines == WordWrap(text, max)
  {
    if |text| <= max {
      return [text];
    }
    var split := Split(text);
    SplitCount(text);
    if |split| <= 1 {
      return split;
    }
    lines := [];
    var line: seq<string> := [];
    var length := 0;
    var k := 0;
    while k < |split|
      invariant 0 <= k <= |split|
      invariant length == TotalLength(line)
      invariant lines + Lines(Pack(split[k..], max, line)) == Lines(Pack(split, max, []))
    {
      var word := split[k];
      assert split[k..][0] == word && split[k..][1..] == split[k + 1..];
      if |word| + length + |line| > max {
        assert Overflows(line, word, max);
        var joined := JoinBuffered(" ", line);
        ghost var rest := Pack(split[k + 1..], max, [word]);
        assert Lines([line] + rest) == [joined] + Lines(rest);
        lines := lines + [joined];
        line := [word];
        length := |word|;
        assert TotalLength(line) == |word| + TotalLength([]);
      } else {
        TotalLengthSnoc(line, word);
        length := length + |word|;
        line := line + [word];
      }
      k := k + 1;
    }
    var joined := JoinBuffered(" ", line);
    assert Pack(split[k..], max, line) == [line];
    lines := lines + [joined];
  }
}
