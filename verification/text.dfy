/** String helpers used by the help formatter: joining with a delimiter,
    runs of spaces, and splitting on a single space (the `strings.Split(text, " ")`
    call that `wordWrap` relies on). Strings are sequences of characters. */
module Text {

  /** Sum of the lengths of the strings in `parts`. */
  function TotalLength(parts: seq<string>): nat
  {
    if |parts| == 0 then 0 else |parts[0]| + TotalLength(parts[1..])
  }

  /** Appending one more string adds its length. */
  lemma {:induction false} TotalLengthSnoc(parts: seq<string>, last: string)
    ensures TotalLength(parts + [last]) == TotalLength(parts) + |last|
    decreases |parts|
  {
    if |parts| > 0 {
      assert (parts + [last])[1..] == parts[1..] + [last];
      TotalLengthSnoc(parts[1..], last);
    } else {
      assert parts + [last] == [last];
    }
  }

  /** `join`: the parts in order, with `delim` between each adjacent pair and
      nowhere else. */
  function Join(delim: string, parts: seq<string>): string
  {
    if |parts| == 0 then ""
    else if |parts| == 1 then parts[0]
    else parts[0] + delim + Join(delim, parts[1..])
  }

  /** Shape of `Join`: empty for no parts, the part itself for one, otherwise
      every part plus one delimiter per gap, with the first part opening the
      result and the last part closing it (no leading or trailing delimiter). */
  lemma {:induction false} JoinShape(delim: string, parts: seq<string>)
    ensures |parts| == 0 ==> Join(delim, parts) == ""
    ensures |parts| == 1 ==> Join(delim, parts) == parts[0]
    ensures |Join(delim, parts)| == TotalLength(parts) + if |parts| == 0 then 0 else (|parts| - 1) * |delim|
    ensures |parts| > 0 ==> Join(delim, parts)[..|parts[0]|] == parts[0]
    ensures |parts| > 0 ==> EndsWith(Join(delim, parts), parts[|parts| - 1])
    decreases |parts|
  {
    if |parts| > 1 {
      var tail := Join(delim, parts[1..]);
      JoinShape(delim, parts[1..]);
      assert parts[1..][|parts[1..]| - 1] == parts[|parts| - 1];
      assert (|parts| - 1) * |delim| == (|parts[1..]| - 1) * |delim| + |delim|;
      var r := parts[0] + delim + tail;
      var last := parts[|parts| - 1];
      assert r[|r| - |last|..] == tail[|tail| - |last|..];
    }
  }

  /** `suffix` closes `s`. */
  predicate EndsWith(s: string, suffix: string)
  {
    |suffix| <= |s| && s[|s| - |suffix|..] == suffix
  }

  /** Appending one more part adds one delimiter and the part at the end. */
  lemma {:induction false} JoinSnoc(delim: string, parts: seq<string>, last: string)
    requires |parts| >= 1
    ensures Join(delim, parts + [last]) == Join(delim, parts) + delim + last
    decreases |parts|
  {
    if |parts| == 1 {
      assert parts + [last] == [parts[0], last];
      assert [parts[0], last][1..] == [last];
    } else {
      var xs := parts + [last];
      assert xs[1..] == parts[1..] + [last];
      JoinSnoc(delim, parts[1..], last);
    }
  }

  /** Joining a concatenation is joining the halves with one delimiter between them. */
  lemma {:induction false} JoinAppend(delim: string, front: seq<string>, back: seq<string>)
    requires |front| >= 1 && |back| >= 1
    ensures Join(delim, front + back) == Join(delim, front) + delim + Join(delim, back)
    decreases |front|
  {
    var xs := front + back;
    assert xs[1..] == front[1..] + back;
    if |front| == 1 {
      assert xs[1..] == back;
    } else {
      JoinAppend(delim, front[1..], back);
    }
  }

  /** Extending the first part by a prefix extends the joined string by that prefix. */
  lemma JoinExtendFirst(delim: string, prefix: string, parts: seq<string>)
    requires |parts| >= 1
    ensures Join(delim, [prefix + parts[0]] + parts[1..]) == prefix + Join(delim, parts)
  {
  }

  /** The buffered loop of `join`: write each part, then the delimiter unless
      the part is the last one. */
  method JoinBuffered(delim: string, parts: seq<string>) returns (r: string)
    ensures r == Join(delim, parts)
  {
    var num := |parts|;
    if num == 0 {
      return "";
    }
    r := "";
    var index := 0;
    while index < num
      invariant 0 <= index <= num
      invariant r == if index == 0 then "" else Join(delim, parts[..index]) + if index < num then delim else ""
    {
      if index > 0 {
        assert parts[..index + 1] == parts[..index] + [parts[index]];
        JoinSnoc(delim, parts[..index], parts[index]);
      } else {
        assert parts[..1] == [parts[0]];
      }
      r := r + parts[index];
      if index < num - 1 {
        r := r + delim;
      }
      index := index + 1;
    }
    assert parts[..num] == parts;
  }

  /** `spacer`: a run of spaces, as long as asked for and empty for a
      non-positive length. */
  function Spacer(length: int): (r: string)
    ensures |r| == if length > 0 then length else 0
    ensures forall i :: 0 <= i < |r| ==> r[i] == ' '
    decreases length
  {
    if length <= 0 then "" else Spacer(length - 1) + " "
  }

  /** The counting loop of `spacer`. */
  method SpacerBuffered(length: int) returns (r: string)
    ensures r == Spacer(length)
  {
    var count := 0;
    r := "";
    while count < length
      invariant 0 <= count
      invariant length >= 0 ==> count <= length
      invariant length < 0 ==> count == 0
      invariant r == Spacer(count)
      decreases length - count
    {
      r := r + " ";
      count := count + 1;
    }
  }

  /** `strings.Split(s, " ")`: the maximal space-free pieces of `s`, in order. */
  function Split(s: string): (r: seq<string>)
    ensures |r| >= 1
    ensures forall i :: 0 <= i < |r| ==> ' ' !in r[i]
    decreases |s|
  {
    if |s| == 0 then [""]
    else
      var rest := Split(s[1..]);
      if s[0] == ' ' then [""] + rest
      else [[s[0]] + rest[0]] + rest[1..]
  }

  /** `Split` has one more piece than `s` has spaces, and a space-free string
      is a single piece. */
  lemma {:induction false} SplitCount(s: string)
    ensures |Split(s)| == multiset(s)[' '] + 1
    ensures ' ' !in s ==> Split(s) == [s]
    decreases |s|
  {
    if |s| > 0 {
      SplitCount(s[1..]);
      assert s == [s[0]] + s[1..];
    }
  }

  /** Rejoining the pieces of `Split(s)` with single spaces gives `s` back. */
  lemma {:induction false} JoinOfSplit(s: string)
    ensures Join(" ", Split(s)) == s
    decreases |s|
  {
    if |s| > 0 {
      var rest := Split(s[1..]);
      JoinOfSplit(s[1..]);
      assert s == [s[0]] + s[1..];
      if s[0] == ' ' {
        assert ([""] + rest)[1..] == rest;
      } else {
        JoinExtendFirst(" ", [s[0]], rest);
      }
    }
  }

  /** Splitting a space-free word followed by more text: the word opens the first piece. */
  lemma {:induction false} SplitAfterWord(word: string, t: string)
    requires ' ' !in word
    ensures Split(word + t) == [word + Split(t)[0]] + Split(t)[1..]
    decreases |word|
  {
    if |word| == 0 {
      var pieces := Split(t);
      assert word + t == t;
      assert word + pieces[0] == pieces[0];
      assert pieces == [pieces[0]] + pieces[1..];
    } else {
      var s := word + t;
      assert s[1..] == word[1..] + t;
      SplitAfterWord(word[1..], t);
      assert [s[0]] + (word[1..] + Split(t)[0]) == word + Split(t)[0];
    }
  }

  /** `Split` undoes `Join(" ", ·)` on space-free words. */
  lemma {:induction false} SplitOfJoin(words: seq<string>)
    requires |words| >= 1
    requires forall i :: 0 <= i < |words| ==> ' ' !in words[i]
    ensures Split(Join(" ", words)) == words
    decreases |words|
  {
    if |words| > 1 {
      var tail := Join(" ", words[1..]);
      SplitOfJoin(words[1..]);
      assert words[0] + " " + tail == words[0] + (" " + tail);
      SplitAfterWord(words[0], " " + tail);
      assert (" " + tail)[1..] == tail;
      assert Split(" " + tail) == [""] + words[1..];
      assert words[0] + "" == words[0];
      assert words == [words[0]] + words[1..];
    } else {
      SplitCount(words[0]);
    }
  }
}
