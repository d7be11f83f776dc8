/** The few java.lang.String and java.lang.Integer operations the Duke core
    relies on, stated over `seq<char>`: `split` with a one-character
    separator, `trim`, `Integer.parseInt` and `Integer.toString` of a
    non-negative value. */
module JavaStrings {
  import opened Errors

  /** The range of a Java `int`. */
  const IntMin: int := -0x8000_0000
  const IntMax: int := 0x7fff_ffff

  // ---------------------------------------------------------------------
  // String.split(sep) for a separator that is one ordinary character
  // ---------------------------------------------------------------------

  /** The pieces of `s` between the occurrences of `sep`, empty pieces
      included: there is one more piece than there are separators. */
  function Pieces(s: string, sep: char): (r: seq<string>)
    ensures |r| >= 1
    ensures forall i :: 0 <= i < |r| ==> sep !in r[i]
  {
    if s == [] then [""]
    else
      var rest := Pieces(s[1..], sep);
      if s[0] == sep then [""] + rest
      else [[s[0]] + rest[0]] + rest[1..]
  }

  /** The pieces put back together with `sep` between neighbours. */
  function Join(ps: seq<string>, sep: char): string
  {
    if |ps| == 0 then ""
    else if |ps| == 1 then ps[0]
    else ps[0] + [sep] + Join(ps[1..], sep)
  }

  /** `ps` without its run of trailing empty strings. */
  function DropTrailingEmpty(ps: seq<string>): (r: seq<string>)
    ensures r <= ps
    ensures r == [] || r[|r| - 1] != ""
    ensures forall i :: |r| <= i < |ps| ==> ps[i] == ""
  {
    if ps != [] && ps[|ps| - 1] == "" then DropTrailingEmpty(ps[..|ps| - 1]) else ps
  }

  /** Java's `s.split(sep)`: a string without the separator is its own only
      token (so "" gives [""]); otherwise the pieces, less the trailing empty
      ones (so a string of separators only gives no token at all). */
  function Split(s: string, sep: char): (r: seq<string>)
    ensures forall i :: 0 <= i < |r| ==> sep !in r[i]
    ensures s == [] ==> r == [""]
    ensures s != [] ==> r == [] || r[|r| - 1] != ""
  {
    if sep !in s then [s] else DropTrailingEmpty(Pieces(s, sep))
  }

  predicate AllSep(t: string, sep: char) {
    forall i :: 0 <= i < |t| ==> t[i] == sep
  }

  /** Joining the pieces gives the string back. */
  lemma {:induction false} JoinPieces(s: string, sep: char)
    ensures Join(Pieces(s, sep), sep) == s
  {
    if s != [] {
      var rest := Pieces(s[1..], sep);
      JoinPieces(s[1..], sep);
      if s[0] == sep {
        assert ([""] + rest)[1..] == rest;
      } else if |rest| > 1 {
        var ps := Pieces(s, sep);
        assert ps[1..] == rest[1..];
        assert Join(rest, sep) == rest[0] + [sep] + Join(rest[1..], sep);
      }
    }
  }

  /** A separator splits the pieces exactly at its position. */
  lemma {:induction false} PiecesAround(x: string, y: string, sep: char)
    ensures Pieces(x + [sep] + y, sep) == Pieces(x, sep) + Pieces(y, sep)
  {
    if x == [] {
      assert (x + [sep] + y)[1..] == y;
    } else {
      assert (x + [sep] + y)[1..] == x[1..] + [sep] + y;
      PiecesAround(x[1..], y, sep);
    }
  }

  /** A string without the separator is a single piece. */
  lemma {:induction false} PiecesOfWord(s: string, sep: char)
    requires sep !in s
    ensures Pieces(s, sep) == [s]
  {
    if s != [] {
      PiecesOfWord(s[1..], sep);
      assert [s[0]] + s[1..] == s;
    }
  }

  /** Splitting a join of separator-free pieces gives the pieces back. */
  lemma {:induction false} PiecesJoin(ps: seq<string>, sep: char)
    requires |ps| >= 1
    requires forall i :: 0 <= i < |ps| ==> sep !in ps[i]
    ensures Pieces(Join(ps, sep), sep) == ps
  {
    if |ps| == 1 {
      PiecesOfWord(ps[0], sep);
    } else {
      PiecesOfWord(ps[0], sep);
      PiecesJoin(ps[1..], sep);
      PiecesAround(ps[0], Join(ps[1..], sep), sep);
      assert [ps[0]] + ps[1..] == ps;
    }
  }

  lemma {:induction false} JoinSnoc(a: seq<string>, x: string, sep: char)
    requires |a| >= 1
    ensures Join(a + [x], sep) == Join(a, sep) + [sep] + x
  {
    if |a| > 1 {
      assert (a + [x])[1..] == a[1..] + [x];
      JoinSnoc(a[1..], x, sep);
    }
  }

  /** Appending empty pieces only appends separators to the join. */
  lemma {:induction false} JoinTrailingEmpty(r: seq<string>, e: seq<string>, sep: char)
    requires forall i :: 0 <= i < |e| ==> e[i] == ""
    ensures Join(r, sep) <= Join(r + e, sep)
    ensures AllSep(Join(r + e, sep)[|Join(r, sep)|..], sep)
  {
    if e == [] {
      assert r + e == r;
    } else {
      var e' := e[..|e| - 1];
      JoinTrailingEmpty(r, e', sep);
      assert r + e == (r + e') + [""];
      if r + e' == [] {
        assert r + e == [""];
      } else {
        JoinSnoc(r + e', "", sep);
      }
    }
  }

  /** Split drops only separators: its tokens joined by the separator are a
      prefix of the line, and the rest of the line is separators. */
  lemma SplitJoin(s: string, sep: char)
    ensures Join(Split(s, sep), sep) <= s
    ensures AllSep(s[|Join(Split(s, sep), sep)|..], sep)
  {
    if sep in s {
      var ps := Pieces(s, sep);
      var r := DropTrailingEmpty(ps);
      JoinPieces(s, sep);
      assert ps == r + ps[|r|..];
      JoinTrailingEmpty(r, ps[|r|..], sep);
    }
  }

  lemma {:induction false} PiecesOfSeparators(s: string, sep: char)
    requires AllSep(s, sep)
    ensures forall i :: 0 <= i < |Pieces(s, sep)| ==> Pieces(s, sep)[i] == ""
  {
    if s != [] {
      PiecesOfSeparators(s[1..], sep);
    }
  }

  /** A non-empty line of separators only has no token. */
  lemma SplitSeparatorsOnly(s: string, sep: char)
    requires s != [] && AllSep(s, sep)
    ensures Split(s, sep) == []
  {
    PiecesOfSeparators(s, sep);
    assert s[0] == sep;
  }

  lemma PiecesLeading(k: string, rest: string, sep: char)
    requires sep !in k
    requires rest == [] || rest[0] == sep
    ensures Pieces(k + rest, sep)[0] == k
  {
    PiecesOfWord(k, sep);
    if rest != [] {
      assert k + rest == k + [sep] + rest[1..];
      PiecesAround(k, rest[1..], sep);
    } else {
      assert k + rest == k;
    }
  }

  /** A non-empty separator-free word followed by nothing or a separator is
      the first token. */
  lemma SplitLeading(k: string, rest: string, sep: char)
    requires k != [] && sep !in k
    requires rest == [] || rest[0] == sep
    ensures |Split(k + rest, sep)| >= 1 && Split(k + rest, sep)[0] == k
  {
    PiecesLeading(k, rest, sep);
    if rest == [] {
      assert k + rest == k;
    }
  }

  /** The same for the first two tokens. */
  lemma SplitLeadingTwo(k: string, w: string, rest: string, sep: char)
    requires k != [] && sep !in k
    requires w != [] && sep !in w
    requires rest == [] || rest[0] == sep
    ensures var toks := Split(k + [sep] + w + rest, sep);
      |toks| >= 2 && toks[0] == k && toks[1] == w
  {
    var line := k + [sep] + w + rest;
    assert line == k + [sep] + (w + rest);
    PiecesAround(k, w + rest, sep);
    PiecesOfWord(k, sep);
    PiecesLeading(w, rest, sep);
    assert sep in line by { assert line[|k|] == sep; }
    var ps := Pieces(line, sep);
    assert ps[0] == k && ps[1] == w;
  }

  /** A separator-free word followed only by separators is the one token. */
  lemma SplitWordThenSeparators(k: string, rest: string, sep: char)
    requires k != [] && sep !in k
    requires AllSep(rest, sep)
    ensures Split(k + rest, sep) == [k]
  {
    if rest == [] {
      assert k + rest == k;
    } else {
      var line := k + rest;
      assert line == k + [sep] + rest[1..];
      PiecesAround(k, rest[1..], sep);
      PiecesOfWord(k, sep);
      PiecesOfSeparators(rest[1..], sep);
      assert sep in line by { assert line[|k|] == sep; }
      var ps := Pieces(line, sep);
      assert ps[0] == k;
      assert forall i :: 1 <= i < |ps| ==> ps[i] == "";
    }
  }

  /** Two words with one separator between them are two tokens. */
  lemma SplitTwoWords(k: string, w: string, sep: char)
    requires k != [] && sep !in k
    requires w != [] && sep !in w
    ensures Split(k + [sep] + w, sep) == [k, w]
  {
    var line := k + [sep] + w;
    PiecesAround(k, w, sep);
    PiecesOfWord(k, sep);
    PiecesOfWord(w, sep);
    assert sep in line by { assert line[|k|] == sep; }
  }

  /** Two separators in a row make an empty token between their neighbours. */
  lemma SplitDoubledSeparator(k: string, w: string, sep: char)
    requires k != [] && sep !in k
    requires w != [] && sep !in w
    ensures Split(k + [sep] + [sep] + w, sep) == [k, "", w]
  {
    var line := k + [sep] + [sep] + w;
    assert line == k + [sep] + ([] + [sep] + w);
    PiecesAround(k, [] + [sep] + w, sep);
    PiecesAround([], w, sep);
    PiecesOfWord(k, sep);
    PiecesOfWord([], sep);
    PiecesOfWord(w, sep);
    assert sep in line by { assert line[|k|] == sep; }
  }

  // ---------------------------------------------------------------------
  // String.trim()
  // ---------------------------------------------------------------------

  /** The characters `trim` removes: every code point up to U+0020. */
  predicate IsSpace(c: char) {
    c <= ' '
  }

  /** Where `trim` starts: the first index at or after `st` that holds no
      white space, or the end of the text. */
  function TrimStartIndex(s: string, st: nat): (r: nat)
    requires st <= |s|
    ensures st <= r <= |s|
    ensures forall i :: st <= i < r ==> IsSpace(s[i])
    ensures r == |s| || !IsSpace(s[r])
    decreases |s| - st
  {
    if st < |s| && IsSpace(s[st]) then TrimStartIndex(s, st + 1) else st
  }

  /** Where `trim` ends: `len` moved back over white space, never past `st`. */
  function TrimEndIndex(s: string, st: nat, len: nat): (r: nat)
    requires st <= len <= |s|
    ensures st <= r <= len
    ensures forall i :: r <= i < len ==> IsSpace(s[i])
    ensures r == st || !IsSpace(s[r - 1])
  {
    if st < len && IsSpace(s[len - 1]) then TrimEndIndex(s, st, len - 1) else len
  }

  /** Java's `s.trim()`: `s` without its leading and trailing white space;
      what is left begins and ends with a character that is not white space. */
  function Trim(s: string): (r: string)
    ensures |r| <= |s|
    ensures r == [] || (!IsSpace(r[0]) && !IsSpace(r[|r| - 1]))
  {
    var st := TrimStartIndex(s, 0);
    s[st..TrimEndIndex(s, st, |s|)]
  }

  /** Trimming leaves nothing exactly when the text is all white space. */
  lemma TrimToEmpty(s: string)
    ensures Trim(s) == [] <==> forall i :: 0 <= i < |s| ==> IsSpace(s[i])
  {
    var st := TrimStartIndex(s, 0);
    if st < |s| {
      assert TrimEndIndex(s, st, |s|) > st;
    }
  }

  /** A string without white space at either end is its own trim. */
  lemma TrimOfTrimmed(s: string)
    requires s == [] || (!IsSpace(s[0]) && !IsSpace(s[|s| - 1]))
    ensures Trim(s) == s
  {
    if s != [] {
      assert TrimStartIndex(s, 0) == 0;
      assert s[0..|s|] == s;
    }
  }

  /** Trimming twice is trimming once. */
  lemma TrimIdempotent(s: string)
    ensures Trim(Trim(s)) == Trim(s)
  {
    TrimOfTrimmed(Trim(s));
  }

  /** `s` up to its trailing white space: what `trim` keeps of a text that
      begins with a character that is not white space. */
  function TrimTrailing(s: string): (r: string)
    ensures r <= s
  {
    s[..TrimEndIndex(s, 0, |s|)]
  }

  /** Moving back over white space in `h + t` stops inside `t` when `t`
      has a non-space character at `k`. */
  lemma {:induction false} TrimEndIndexAfter(h: string, t: string, k: nat, len: nat)
    requires k < |t| && !IsSpace(t[k])
    requires |h| + k < len <= |h| + |t|
    ensures TrimEndIndex(h + t, 0, len) == |h| + TrimEndIndex(t, 0, len - |h|)
    decreases len
  {
    var s := h + t;
    assert s[len - 1] == t[len - |h| - 1];
    if IsSpace(s[len - 1]) {
      assert len - 1 > |h| + k;
      TrimEndIndexAfter(h, t, k, len - 1);
    }
  }

  /** A text that begins with a non-space character keeps its beginning:
      trimming it only removes the white space at its end. */
  lemma TrimAfterHead(h: string, t: string, k: nat)
    requires h != [] && !IsSpace(h[0])
    requires k < |t| && !IsSpace(t[k])
    ensures Trim(h + t) == h + TrimTrailing(t)
  {
    var s := h + t;
    assert TrimStartIndex(s, 0) == 0;
    TrimEndIndexAfter(h, t, k, |s|);
    var n := TrimEndIndex(t, 0, |t|);
    assert s[0..|h| + n] == h + t[..n];
  }

  // ---------------------------------------------------------------------
  // Integer.parseInt and Integer.toString
  // ---------------------------------------------------------------------

  predicate IsDigit(c: char) {
    '0' <= c <= '9'
  }

  predicate AllDigits(s: string) {
    forall i :: 0 <= i < |s| ==> IsDigit(s[i])
  }

  function DigitValue(c: char): nat
    requires IsDigit(c)
  {
    c as int - '0' as int
  }

  function DigitChar(d: nat): (c: char)
    requires d < 10
    ensures IsDigit(c) && DigitValue(c) == d
  {
    (d + '0' as int) as char
  }

  /** The value of a string of decimal digits. */
  function DigitsValue(s: string): nat
    requires AllDigits(s)
  {
    if s == [] then 0 else DigitsValue(s[..|s| - 1]) * 10 + DigitValue(s[|s| - 1])
  }

  /** The text after an optional leading sign. */
  function Unsigned(s: string): (u: string)
    requires s != []
    ensures u == s || u == s[1..]
  {
    if s[0] == '-' || s[0] == '+' then s[1..] else s
  }

  /** `Integer.parseInt(s)`: an optional sign and at least one decimal digit
      whose value fits in an `int`; `None` where Java throws
      NumberFormatException. */
  function ParseInt(s: string): (r: Option<int>)
    ensures r.Some? <==>
      s != [] && Unsigned(s) != [] && AllDigits(Unsigned(s))
      && DigitsValue(Unsigned(s)) <= (if s[0] == '-' then -IntMin else IntMax)
    ensures r.Some? ==> IntMin <= r.value <= IntMax
    ensures r.Some? ==> DigitsValue(Unsigned(s)) == (if r.value < 0 then -r.value else r.value)
    ensures r.Some? && r.value < 0 ==> s[0] == '-'
  {
    if s == [] then None
    else
      var digits := Unsigned(s);
      if digits == [] || !AllDigits(digits) then None
      else
        var magnitude: int := DigitsValue(digits);
        var v := if s[0] == '-' then -magnitude else magnitude;
        if IntMin <= v <= IntMax then Some(v) else None
  }

  /** `Integer.parseInt(s)` as a computation that throws NumberFormatFault. */
  function ParseIntOrThrow(s: string): Result<int>
  {
    match ParseInt(s)
    case None => Err(NumberFormatFault)
    case Some(n) => Ok(n)
  }

  /** `Integer.toString(n)` for `n >= 0`: the shortest decimal digits of `n`. */
  function Decimal(n: nat): (r: string)
    ensures r != [] && AllDigits(r) && DigitsValue(r) == n
    ensures r[0] != '0' || n == 0
  {
    if n < 10 then [DigitChar(n)]
    else
      var r := Decimal(n / 10) + [DigitChar(n % 10)];
      assert r[..|r| - 1] == Decimal(n / 10);
      r
  }

  /** parseInt reads back what toString writes. */
  lemma ParseDecimal(n: nat)
    requires n <= IntMax
    ensures ParseInt(Decimal(n)) == Some(n)
  {
    var r := Decimal(n);
    assert IsDigit(r[0]);
  }

  /** A digit string read by parseInt has its digit value. */
  lemma ParseDigits(s: string)
    requires s != [] && AllDigits(s) && DigitsValue(s) <= IntMax
    ensures ParseInt(s) == Some(DigitsValue(s))
  {
    assert IsDigit(s[0]);
  }

  lemma {:induction false} PositiveDigits(s: string)
    requires s != [] && AllDigits(s) && s[0] != '0'
    ensures DigitsValue(s) > 0
  {
    if |s| > 1 {
      PositiveDigits(s[..|s| - 1]);
    } else {
      assert IsDigit(s[0]);
    }
  }

  /** Every digit string without a leading zero is the toString of its value. */
  lemma {:induction false} DecimalOfDigits(s: string)
    requires s != [] && AllDigits(s) && (s[0] != '0' || |s| == 1)
    ensures Decimal(DigitsValue(s)) == s
  {
    var n := DigitsValue(s);
    var d := s[|s| - 1];
    if |s| == 1 {
      assert DigitChar(DigitValue(d)) == d;
    } else {
      var s' := s[..|s| - 1];
      PositiveDigits(s');
      DecimalOfDigits(s');
      assert n / 10 == DigitsValue(s') && n % 10 == DigitValue(d);
      assert DigitChar(DigitValue(d)) == d;
      assert s == s' + [d];
    }
  }
}
