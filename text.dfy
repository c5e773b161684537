/**
 The string and path manipulation that the caller resolver of formatter.go
 relies on: splitting a qualified function name on '/', the base name of a
 source file path, and the decimal rendering of a line number. Each one comes
 with its partner (Join, the suffix characterisation, ParseInt) and a lemma
 connecting the two.
 */
module Text {
  import opened Wrappers

  /** The pieces of `s` between occurrences of `sep`, as strings.Split does for a
      one-character separator: n separators give n + 1 pieces, some possibly empty. */
  function Split(s: string, sep: char): (parts: seq<string>)
    ensures |parts| >= 1
    decreases |s|
  {
    if |s| == 0 then [""]
    else
      var init := Split(s[..|s| - 1], sep);
      var c := s[|s| - 1];
      if c == sep then init + [""]
      else init[..|init| - 1] + [init[|init| - 1] + [c]]
  }

  /** No piece holds the separator. */
  lemma {:induction false} SplitPiecesLackSeparator(s: string, sep: char)
    ensures forall i | 0 <= i < |Split(s, sep)| :: sep !in Split(s, sep)[i]
    decreases |s|
  {
    if |s| > 0 {
      var init := Split(s[..|s| - 1], sep);
      var c := s[|s| - 1];
      SplitPiecesLackSeparator(s[..|s| - 1], sep);
      if c != sep {
        var piece := init[|init| - 1];
        assert sep !in piece;
        assert sep !in piece + [c] by {
          assert forall x | x in piece + [c] :: x in piece || x == c;
        }
        var parts := init[..|init| - 1] + [piece + [c]];
        assert forall i | 0 <= i < |parts| - 1 :: parts[i] == init[i];
      }
    }
  }

  /** The pieces glued back together with `sep` between neighbours. */
  function Join(parts: seq<string>, sep: char): string
    requires |parts| >= 1
  {
    if |parts| == 1 then parts[0]
    else Join(parts[..|parts| - 1], sep) + [sep] + parts[|parts| - 1]
  }

  /** The last element of a non-empty sequence of pieces. */
  function Last(parts: seq<string>): string
    requires |parts| >= 1
  {
    parts[|parts| - 1]
  }

  /** Appending a character to the last piece appends it to the joined string. */
  lemma {:induction false} JoinExtendLast(parts: seq<string>, sep: char, c: char)
    requires |parts| >= 1
    ensures Join(parts[..|parts| - 1] + [Last(parts) + [c]], sep) == Join(parts, sep) + [c]
  {
    var q := parts[..|parts| - 1] + [Last(parts) + [c]];
    if |parts| > 1 {
      assert q[..|q| - 1] == parts[..|parts| - 1];
    }
  }

  /** Splitting loses nothing: joining the pieces gives back the string. */
  lemma {:induction false} JoinSplit(s: string, sep: char)
    ensures Join(Split(s, sep), sep) == s
    decreases |s|
  {
    if |s| > 0 {
      var init := Split(s[..|s| - 1], sep);
      JoinSplit(s[..|s| - 1], sep);
      var c := s[|s| - 1];
      if c == sep {
        var parts := init + [""];
        assert parts[..|parts| - 1] == init;
      } else {
        JoinExtendLast(init, sep, c);
      }
      assert s == s[..|s| - 1] + [s[|s| - 1]];
    }
  }

  /** Splitting a string that contains no separator gives that string alone. */
  lemma {:induction false} SplitNoSeparator(p: string, sep: char)
    requires sep !in p
    ensures Split(p, sep) == [p]
    decreases |p|
  {
    if |p| > 0 {
      SplitNoSeparator(p[..|p| - 1], sep);
      assert p[..|p| - 1] + [p[|p| - 1]] == p;
    }
  }

  /** A character other than the separator extends the last piece. */
  lemma SplitAppendChar(s: string, c: char, sep: char)
    requires c != sep
    ensures var parts := Split(s, sep);
      Split(s + [c], sep) == parts[..|parts| - 1] + [Last(parts) + [c]]
  {
    assert (s + [c])[..|s|] == s;
  }

  /** Text without separators that follows a string extends that string's last piece. */
  lemma {:induction false} SplitAppendPiece(s: string, p: string, sep: char)
    requires sep !in p
    ensures var parts := Split(s, sep);
      Split(s + p, sep) == parts[..|parts| - 1] + [Last(parts) + p]
    decreases |p|
  {
    var parts := Split(s, sep);
    if |p| == 0 {
      assert s + p == s;
      assert Last(parts) + p == Last(parts);
      assert parts[..|parts| - 1] + [Last(parts)] == parts;
    } else {
      var p', c := p[..|p| - 1], p[|p| - 1];
      assert p == p' + [c];
      var q := s + p';
      SplitAppendPiece(s, p', sep);
      var init := Split(q, sep);
      SplitAppendChar(q, c, sep);
      SplitOfSame(s + p, q + [c], sep);
      assert init[..|init| - 1] == parts[..|parts| - 1];
      assert Last(init) + [c] == Last(parts) + p;
    }
  }

  /** Equal strings split alike. This is a proof aid with no counterpart in the
      source: stated on its own, it lets proofs compare the strings rather than
      their pieces, which keeps them small. */
  lemma SplitOfSame(a: string, b: string, sep: char)
    requires a == b
    ensures Split(a, sep) == Split(b, sep)
  {
  }

  /** Joining is undone by splitting, as long as no piece holds the separator. */
  lemma {:induction false} SplitJoin(parts: seq<string>, sep: char)
    requires |parts| >= 1
    requires forall i | 0 <= i < |parts| :: sep !in parts[i]
    ensures Split(Join(parts, sep), sep) == parts
    decreases |parts|
  {
    if |parts| == 1 {
      SplitNoSeparator(parts[0], sep);
    } else {
      var init := parts[..|parts| - 1];
      SplitJoin(init, sep);
      var j := Join(init, sep) + [sep];
      assert Split(j, sep) == init + [""] by {
        assert j[..|j| - 1] == Join(init, sep);
      }
      assert Join(parts, sep) == j + Last(parts);
      SplitAppendPiece(j, Last(parts), sep);
      assert (init + [""])[..|init|] == init;
      assert "" + Last(parts) == Last(parts);
      assert init + [Last(parts)] == parts;
    }
  }

  /** The base name of a path: everything after its last '/' (the whole path when
      it has none). */
  function Base(path: string): string
  {
    match LastIndex(path, '/')
    case None => path
    case Some(i) => path[i + 1..]
  }

  /** The base name has no '/', ends the path, and is the whole path or follows a '/'. */
  lemma BaseIsLastSegment(path: string)
    ensures var b := Base(path);
      && '/' !in b
      && |b| <= |path| && path[|path| - |b|..] == b
      && (|b| < |path| ==> path[|path| - |b| - 1] == '/')
  {
  }

  /** A character other than '/' at the end of a path extends its base name. */
  lemma BaseExtend(path: string, c: char)
    requires c != '/'
    ensures Base(path + [c]) == Base(path) + [c]
  {
    var p := path + [c];
    assert p[..|p| - 1] == path;
    assert LastIndex(p, '/') == LastIndex(path, '/');
    match LastIndex(path, '/')
    case None =>
    case Some(i) =>
      assert p[i + 1..] == path[i + 1..] + [c];
  }

  /** A separator at the end of a string starts a new, empty piece. */
  lemma SplitAppendSeparator(s: string, sep: char)
    ensures Split(s + [sep], sep) == Split(s, sep) + [""]
  {
    assert (s + [sep])[..|s|] == s;
  }

  /** A name ending in '/' has an empty last piece and an empty base name. */
  lemma LastSplitAtSeparator(init: string)
    ensures Last(Split(init + ['/'], '/')) == "" == Base(init + ['/'])
  {
    SplitAppendSeparator(init, '/');
    LastIndexBefore(init, '/', []);
    assert init + ['/'] + [] == init + ['/'];
  }

  /** A character other than '/' extends both the last piece and the base name. */
  lemma LastSplitExtend(init: string, c: char)
    requires c != '/'
    requires Last(Split(init, '/')) == Base(init)
    ensures Last(Split(init + [c], '/')) == Base(init + [c])
  {
    SplitAppendPiece(init, [c], '/');
    BaseExtend(init, c);
  }

  /** The last '/'-separated piece of a name is its base name. */
  lemma {:induction false} LastSplitIsBase(name: string)
    ensures Last(Split(name, '/')) == Base(name)
    decreases |name|
  {
    if |name| > 0 {
      var init, c := name[..|name| - 1], name[|name| - 1];
      assert name == init + [c];
      if c == '/' {
        LastSplitAtSeparator(init);
      } else {
        LastSplitIsBase(init);
        LastSplitExtend(init, c);
      }
    }
  }

  predicate IsDigit(c: char)
  {
    '0' <= c <= '9'
  }

  predicate AllDigits(s: string)
  {
    forall i | 0 <= i < |s| :: IsDigit(s[i])
  }

  function DigitChar(k: nat): (c: char)
    requires k < 10
  {
    (k + '0' as int) as char
  }

  /** The decimal digits of a natural number, most significant first, no leading zero. */
  function Decimal(n: nat): (s: string)
    ensures |s| >= 1 && AllDigits(s)
    ensures s[0] == '0' ==> n == 0
    decreases n
  {
    if n < 10 then [DigitChar(n)]
    else Decimal(n / 10) + [DigitChar(n % 10)]
  }

  /** The number a string of decimal digits denotes. */
  function DecimalValue(s: string): nat
    requires AllDigits(s)
    decreases |s|
  {
    if |s| == 0 then 0
    else DecimalValue(s[..|s| - 1]) * 10 + (s[|s| - 1] as int - '0' as int)
  }

  /** A line number as fmt.Sprint renders an int: a '-' sign when negative, then the digits. */
  function Itoa(n: int): (s: string)
    ensures |s| >= 1 && IsDigit(s[|s| - 1])
    ensures forall i | 0 <= i < |s| :: IsDigit(s[i]) || (i == 0 && s[i] == '-')
  {
    if n < 0 then "-" + Decimal(-n) else Decimal(n)
  }

  /** Reads back an optionally signed decimal number; None unless the whole string is one. */
  function ParseInt(s: string): Option<int>
  {
    if |s| >= 2 && s[0] == '-' && AllDigits(s[1..]) then Some(-(DecimalValue(s[1..]) as int))
    else if |s| >= 1 && AllDigits(s) then Some(DecimalValue(s))
    else None
  }

  lemma {:induction false} DecimalRoundTrip(n: nat)
    ensures DecimalValue(Decimal(n)) == n
    decreases n
  {
    if n >= 10 {
      DecimalRoundTrip(n / 10);
      var s := Decimal(n);
      assert s[..|s| - 1] == Decimal(n / 10);
    }
  }

  /** Rendering a line number and reading it back gives the number. */
  lemma ItoaRoundTrip(n: int)
    ensures ParseInt(Itoa(n)) == Some(n)
  {
    if n < 0 {
      DecimalRoundTrip(-n);
      assert Itoa(n)[1..] == Decimal(-n);
    } else {
      DecimalRoundTrip(n);
    }
  }

  /** A character that does not occur after a given position is last found there. */
  lemma {:induction false} LastIndexBefore(a: string, c: char, t: string)
    requires c !in t
    ensures LastIndex(a + [c] + t, c) == Some(|a|)
    decreases |t|
  {
    var s := a + [c] + t;
    if |t| > 0 {
      var t' := t[..|t| - 1];
      assert s[..|s| - 1] == a + [c] + t';
      assert s[|s| - 1] == t[|t| - 1];
      LastIndexBefore(a, c, t');
    }
  }

  /** The position of the last occurrence of `c` in `s`. */
  function LastIndex(s: string, c: char): (r: Option<nat>)
    ensures r.Some? ==> r.value < |s| && s[r.value] == c && c !in s[r.value + 1..]
    ensures r.None? ==> c !in s
    decreases |s|
  {
    if |s| == 0 then None
    else if s[|s| - 1] == c then Some(|s| - 1)
    else LastIndex(s[..|s| - 1], c)
  }

}
