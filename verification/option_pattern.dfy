/** The option pattern `^-{1,2}[a-zA-Z]+$` that `extractOptions` tests every
    token against: one or two leading dashes, then one or more ASCII letters,
    then the end of the token. It is written here as a predicate, and as a
    left-to-right scan with a five-state automaton. */
module OptionPattern {

  predicate IsAsciiLetter(c: char)
  {
    'a' <= c <= 'z' || 'A' <= c <= 'Z'
  }

  /** One or more ASCII letters and nothing else: the `[a-zA-Z]+` part. */
  predicate IsWord(s: string)
  {
    |s| >= 1 && forall i :: 0 <= i < |s| ==> IsAsciiLetter(s[i])
  }

  /** The whole pattern, anchored at both ends. */
  predicate IsOptionToken(a: string)
  {
    || (|a| >= 2 && a[0] == '-' && IsWord(a[1..]))
    || (|a| >= 3 && a[..2] == "--" && IsWord(a[2..]))
  }

  /** The long-form test of `extractOptions`: longer than two characters and
      opening with `--`. */
  predicate IsLong(a: string)
  {
    |a| > 2 && a[..2] == "--"
  }

  /** On an option token the long-form test is exactly "the second character is
      a dash": a long option is `--` and a word, a short option `-` and a word. */
  lemma OptionForm(a: string)
    requires IsOptionToken(a)
    ensures IsLong(a) <==> a[1] == '-'
    ensures IsLong(a) ==> IsWord(a[2..])
    ensures !IsLong(a) ==> IsWord(a[1..])
  {
  }

  /** How far a scan of a token has got. */
  datatype ScanState = Start | OneDash | TwoDashes | InWord | Rejected

  function Step(q: ScanState, c: char): ScanState
  {
    match q
    case Start => if c == '-' then OneDash else Rejected
    case OneDash => if c == '-' then TwoDashes else if IsAsciiLetter(c) then InWord else Rejected
    case TwoDashes => if IsAsciiLetter(c) then InWord else Rejected
    case InWord => if IsAsciiLetter(c) then InWord else Rejected
    case Rejected => Rejected
  }

  /** `p` can still grow into an option token. */
  predicate Viable(p: string)
  {
    p == "" || p == "-" || p == "--" || IsOptionToken(p)
  }

  /** Appending a letter to a word gives a word. */
  lemma WordSnoc(w: string, c: char)
    requires w == "" || IsWord(w)
    requires IsAsciiLetter(c)
    ensures IsWord(w + [c])
  {
  }

  /** Dropping the last character of a word of two or more letters gives a word. */
  lemma WordUnsnoc(w: string, c: char)
    requires IsWord(w + [c])
    ensures IsAsciiLetter(c)
    ensures |w| >= 1 ==> IsWord(w)
  {
    var x := w + [c];
    assert x[|w|] == c;
    forall i | 0 <= i < |w| ensures IsAsciiLetter(w[i]) {
      assert x[i] == w[i];
    }
  }

  /** One more character on a prefix: how the pattern's verdict changes. */
  lemma OptionTokenSnoc(p: string, c: char)
    ensures IsOptionToken(p + [c]) <==> (p == "-" || p == "--" || IsOptionToken(p)) && IsAsciiLetter(c)
    ensures Viable(p + [c]) ==> Viable(p)
  {
    var q := p + [c];
    assert q[..|p|] == p;
    if |q| >= 2 {
      assert q[1..] == p[1..] + [c];
      assert q[0] == p[0];
    }
    if |q| >= 3 {
      assert q[2..] == p[2..] + [c];
      assert q[..2] == p[..2];
    }
    if IsOptionToken(q) {
      if |q| >= 3 && q[..2] == "--" && IsWord(q[2..]) {
        WordUnsnoc(p[2..], c);
        assert p == "--" || IsOptionToken(p);
      } else {
        assert q[0] == '-' && IsWord(q[1..]);
        WordUnsnoc(p[1..], c);
        if |p| == 1 {
          assert p == "-";
        } else {
          assert IsOptionToken(p);
        }
      }
    }
    if IsAsciiLetter(c) {
      if p == "-" {
        assert q[1..] == [c];
      } else if p == "--" {
        assert q[2..] == [c];
        assert q[..2] == "--";
      } else if IsOptionToken(p) {
        if |p| >= 3 && p[..2] == "--" && IsWord(p[2..]) {
          WordSnoc(p[2..], c);
        } else {
          WordSnoc(p[1..], c);
        }
      }
    }
  }

  /** The regular-expression match of `extractOptions`, as one pass over the
      token with the automaton `Step`. */
  method MatchOptionPattern(a: string) returns (matched: bool)
    ensures matched <==> IsOptionToken(a)
  {
    var q := Start;
    var i := 0;
    while i < |a|
      invariant 0 <= i <= |a|
      invariant q == Start <==> a[..i] == ""
      invariant q == OneDash <==> a[..i] == "-"
      invariant q == TwoDashes <==> a[..i] == "--"
      invariant q == InWord <==> IsOptionToken(a[..i])
      invariant q == Rejected <==> !Viable(a[..i])
    {
      assert a[..i + 1] == a[..i] + [a[i]];
      OptionTokenSnoc(a[..i], a[i]);
      q := Step(q, a[i]);
      i := i + 1;
    }
    assert a[..i] == a;
    matched := q == InWord;
  }
}
