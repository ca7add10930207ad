/** `extractOptions`: the token classifier. It walks the raw argument list
    left to right with a cursor and sorts every token into the option names
    (short clusters expanded letter by letter, long names without their
    dashes) or the plain arguments, honouring the `--` escape. */
module Extract {
  import opened OptionPattern

  /** The two lists `extractOptions` returns. */
  datatype Classified = Classified(options: seq<string>, args: seq<string>)
  {
    /** The classification of a token list followed by that of another. */
    function Append(other: Classified): Classified
    {
      Classified(options + other.options, args + other.args)
    }
  }

  /** Each character of `s` as a one-character string, in order. */
  function CharStrings(s: string): seq<string>
  {
    seq(|s|, i requires 0 <= i < |s| => [s[i]])
  }

  /** `xs` can be obtained from `ys` by deleting elements. */
  predicate IsSubsequence<T(==)>(xs: seq<T>, ys: seq<T>)
    decreases |ys|
  {
    if |xs| == 0 then true
    else if |ys| == 0 then false
    else (xs[0] == ys[0] && IsSubsequence(xs[1..], ys[1..])) || IsSubsequence(xs, ys[1..])
  }

  /** What one token yields when it is not an escape: a token failing the
      option pattern is an argument; a long option yields its name; a short
      option yields one name per letter. Option names are ASCII words, never
      a dash and never empty. */
  function Yield(a: string): (r: Classified)
    ensures forall i :: 0 <= i < |r.options| ==> IsWord(r.options[i])
    ensures r.args == (if IsOptionToken(a) then [] else [a])
  {
    if !IsOptionToken(a) then Classified([], [a])
    else
      OptionForm(a);
      if IsLong(a) then Classified([a[2..]], [])
      else Classified(CharStrings(a[1..]), [])
  }

  /** The classifier, one cursor step per call: an escape `--` with a token
      after it forces that token into the arguments and advances by two;
      any other token yields its `Yield` and advances by one. Every option
      name is a word of ASCII letters. */
  function ExtractOptions(tokens: seq<string>): (r: Classified)
    ensures forall i :: 0 <= i < |r.options| ==> IsWord(r.options[i])
    decreases |tokens|
  {
    if |tokens| == 0 then Classified([], [])
    else if tokens[0] == "--" && |tokens| > 1 then
      Classified([], [tokens[1]]).Append(ExtractOptions(tokens[2..]))
    else
      Yield(tokens[0]).Append(ExtractOptions(tokens[1..]))
  }

  /** Classifications concatenate associatively. */
  lemma AppendAssoc(x: Classified, y: Classified, z: Classified)
    ensures x.Append(y).Append(z) == x.Append(y.Append(z))
  {
  }

  /** Dropping the first element of `ys` keeps `xs` a subsequence. */
  lemma SubsequenceOfTail<T>(xs: seq<T>, ys: seq<T>)
    requires |ys| >= 1 && IsSubsequence(xs, ys[1..])
    ensures IsSubsequence(xs, ys)
  {
  }

  /** The arguments are tokens of the input, in input order. */
  lemma {:induction false} ArgumentsKeepInputOrder(tokens: seq<string>)
    ensures IsSubsequence(ExtractOptions(tokens).args, tokens)
    decreases |tokens|
  {
    if |tokens| > 0 {
      var a := tokens[0];
      if a == "--" && |tokens| > 1 {
        var rest := ExtractOptions(tokens[2..]).args;
        ArgumentsKeepInputOrder(tokens[2..]);
        assert tokens[1..][1..] == tokens[2..];
        assert IsSubsequence([tokens[1]] + rest, tokens[1..]) by {
          assert ([tokens[1]] + rest)[1..] == rest;
        }
        SubsequenceOfTail([tokens[1]] + rest, tokens);
      } else {
        var rest := ExtractOptions(tokens[1..]).args;
        ArgumentsKeepInputOrder(tokens[1..]);
        if IsOptionToken(a) {
          assert ExtractOptions(tokens).args == rest;
          if |rest| > 0 {
            SubsequenceOfTail(rest, tokens);
          }
        } else {
          assert ([a] + rest)[1..] == rest;
        }
      }
    }
  }

  /** The cursor steps over the tokens without stopping on a final lone `--`,
      so nothing that follows can be pulled in as an escaped token. */
  predicate NoDanglingEscape(tokens: seq<string>)
    decreases |tokens|
  {
    if |tokens| == 0 then true
    else if tokens[0] == "--" then |tokens| > 1 && NoDanglingEscape(tokens[2..])
    else NoDanglingEscape(tokens[1..])
  }

  /** The escape rule: after `--` the next token is an argument, verbatim,
      whatever it looks like; neither token yields an option. This spells
      out the escape case of the definition of `ExtractOptions`. */
  lemma EscapedTokenIsArgument(t: string, rest: seq<string>)
    ensures ExtractOptions(["--", t] + rest) == Classified([], [t]).Append(ExtractOptions(rest))
  {
  }

  /** A token that fails the option pattern is an argument, unchanged; this
      includes a lone `--` at the end of the list. This spells out the
      plain-token case of the definition of `ExtractOptions`. */
  lemma PlainTokenIsArgument(a: string, rest: seq<string>)
    requires !IsOptionToken(a)
    requires a != "--" || rest == []
    ensures ExtractOptions([a] + rest) == Classified([], [a]).Append(ExtractOptions(rest))
  {
  }

  /** `-` and a word yields each letter of the word as its own option, in
      order, and no argument. */
  lemma ShortClusterYieldsLetters(word: string, rest: seq<string>)
    requires IsWord(word)
    ensures ExtractOptions(["-" + word] + rest) == Classified(CharStrings(word), []).Append(ExtractOptions(rest))
  {
    var a := "-" + word;
    assert a[1..] == word;
    assert IsOptionToken(a);
    assert a[1] != '-' by { assert a[1] == word[0]; }
    OptionForm(a);
    assert ([a] + rest)[1..] == rest;
  }

  /** `--` and a word yields the word as one option, and no argument. This
      spells out the long-option case of the definition of `ExtractOptions`. */
  lemma LongOptionYieldsName(word: string, rest: seq<string>)
    requires IsWord(word)
    ensures ExtractOptions(["--" + word] + rest) == Classified([word], []).Append(ExtractOptions(rest))
  {
  }

  /** Classifying a concatenation is classifying the halves, when the first
      half does not end on a lone escape. */
  lemma {:induction false} ExtractAppend(front: seq<string>, back: seq<string>)
    requires NoDanglingEscape(front)
    ensures ExtractOptions(front + back) == ExtractOptions(front).Append(ExtractOptions(back))
    decreases |front|
  {
    var xs := front + back;
    if |front| == 0 {
      assert xs == back;
    } else if front[0] == "--" {
      assert xs[0] == "--" && xs[1] == front[1];
      assert xs[2..] == front[2..] + back;
      ExtractAppend(front[2..], back);
      AppendAssoc(Classified([], [front[1]]), ExtractOptions(front[2..]), ExtractOptions(back));
    } else {
      assert xs[0] == front[0];
      assert xs[1..] == front[1..] + back;
      ExtractAppend(front[1..], back);
      AppendAssoc(Yield(front[0]), ExtractOptions(front[1..]), ExtractOptions(back));
    }
  }

  /** A list without any `--` never ends on a lone escape. */
  lemma {:induction false} NoEscapeIsClean(tokens: seq<string>)
    requires "--" !in tokens
    ensures NoDanglingEscape(tokens)
    decreases |tokens|
  {
    if |tokens| > 0 {
      assert tokens[0] != "--";
      assert forall t :: t in tokens[1..] ==> t in tokens;
      NoEscapeIsClean(tokens[1..]);
    }
  }

  /** A lone `--` closing the list is a plain argument, whatever precedes it,
      as long as the preceding tokens do not themselves end on a lone `--`
      (which would escape it instead). */
  lemma TrailingEscapeIsArgument(tokens: seq<string>)
    requires NoDanglingEscape(tokens)
    ensures ExtractOptions(tokens + ["--"]) == ExtractOptions(tokens).Append(Classified([], ["--"]))
  {
    ExtractAppend(tokens, ["--"]);
  }

  /** The flags `-a`, `-b`, ... one per letter of `word`. */
  function SeparateFlags(word: string): seq<string>
  {
    seq(|word|, i requires 0 <= i < |word| => "-" + [word[i]])
  }

  /** Separate one-letter flags yield the same options as their cluster. */
  lemma {:induction false} SeparateFlagsYieldLetters(word: string)
    requires forall i :: 0 <= i < |word| ==> IsAsciiLetter(word[i])
    ensures ExtractOptions(SeparateFlags(word)) == Classified(CharStrings(word), [])
    decreases |word|
  {
    if |word| > 0 {
      var flags := SeparateFlags(word);
      var tail := SeparateFlags(word[1..]);
      assert flags == ["-" + [word[0]]] + tail;
      assert IsWord([word[0]]);
      ShortClusterYieldsLetters([word[0]], tail);
      assert CharStrings([word[0]]) == [[word[0]]];
      SeparateFlagsYieldLetters(word[1..]);
      assert CharStrings(word) == [[word[0]]] + CharStrings(word[1..]);
    } else {
      assert SeparateFlags(word) == [];
    }
  }

  /** Clustering: `-ab` classifies exactly as `-a -b`, whatever follows. */
  lemma ClusterSameAsSeparateFlags(word: string, rest: seq<string>)
    requires IsWord(word)
    ensures ExtractOptions(["-" + word] + rest) == ExtractOptions(SeparateFlags(word) + rest)
  {
    var flags := SeparateFlags(word);
    assert "--" !in flags by {
      forall i | 0 <= i < |flags| ensures flags[i] != "--" {
        assert flags[i][1] == word[i];
      }
    }
    NoEscapeIsClean(flags);
    ExtractAppend(flags, rest);
    SeparateFlagsYieldLetters(word);
    ShortClusterYieldsLetters(word, rest);
  }

  /** Without option tokens there are no options; without escapes as well,
      the arguments are the input, verbatim. */
  lemma {:induction false} PlainInputPassesThrough(tokens: seq<string>)
    requires forall i :: 0 <= i < |tokens| ==> !IsOptionToken(tokens[i])
    ensures ExtractOptions(tokens).options == []
    ensures "--" !in tokens ==> ExtractOptions(tokens).args == tokens
    decreases |tokens|
  {
    if |tokens| > 0 {
      if tokens[0] == "--" && |tokens| > 1 {
        PlainInputPassesThrough(tokens[2..]);
      } else {
        assert "--" !in tokens ==> "--" !in tokens[1..] by {
          assert forall t :: t in tokens[1..] ==> t in tokens;
        }
        PlainInputPassesThrough(tokens[1..]);
        assert tokens == [tokens[0]] + tokens[1..];
      }
    }
  }

  /** One cursor step of the classifier at position `count`. */
  lemma ExtractAt(tokens: seq<string>, count: nat)
    requires count < |tokens|
    ensures tokens[count] == "--" && count + 1 < |tokens| ==>
      ExtractOptions(tokens[count..]) == Classified([], [tokens[count + 1]]).Append(ExtractOptions(tokens[count + 2..]))
    ensures !(tokens[count] == "--" && count + 1 < |tokens|) ==>
      ExtractOptions(tokens[count..]) == Yield(tokens[count]).Append(ExtractOptions(tokens[count + 1..]))
  {
  }

  /** The loop of `extractOptions`, with its inner loop over the letters of a
      short cluster; it computes `ExtractOptions`. */
  method ExtractOptionsLoop(allArgs: seq<string>) returns (options: seq<string>, args: seq<string>)
    ensures Classified(options, args) == ExtractOptions(allArgs)
  {
    options, args := [], [];
    var count := 0;
    var max := |allArgs|;
    while count < max
      invariant 0 <= count <= max
      invariant Classified(options, args).Append(ExtractOptions(allArgs[count..])) == ExtractOptions(allArgs)
      decreases max - count
    {
      var a := allArgs[count];
      ghost var done := Classified(options, args);
      ExtractAt(allArgs, count);
      if a == "--" && |allArgs| > count + 1 {
        // escape: the next token is an argument whatever it looks like
        args := args + [allArgs[count + 1]];
        AppendAssoc(done, Classified([], [allArgs[count + 1]]), ExtractOptions(allArgs[count + 2..]));
        count := count + 2;
      } else {
        var matched := MatchOptionPattern(a);
        if !matched {
          args := args + [a];
        } else {
          OptionForm(a);
          var isShort := true;
          if |a| > 2 && a[..2] == "--" {
            isShort := false;
          }
          if isShort {
            var letters := a[1..];
            var j := 0;
            while j < |letters|
              invariant 0 <= j <= |letters|
              invariant options == done.options + CharStrings(letters[..j])
              invariant args == done.args
            {
              assert CharStrings(letters[..j + 1]) == CharStrings(letters[..j]) + [[letters[j]]];
              options := options + [[letters[j]]];
              j := j + 1;
            }
            assert letters[..j] == letters;
          } else {
            options := options + [a[2..]];
          }
        }
        assert Classified(options, args) == done.Append(Yield(a));
        AppendAssoc(done, Yield(a), ExtractOptions(allArgs[count + 1..]));
        count := count + 1;
      }
    }
    assert allArgs[count..] == [];
  }
}
