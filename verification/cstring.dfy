/**
 The C library string functions the application relies on: reading a C string out of a
 character buffer, `strncpy`, `strtok` and `atoi`.
 */
module CString {
  import opened CTypes

  /** The characters of a NUL-terminated C string, without its terminator. */
  type CStr = s: seq<char> | '\0' !in s

  function Zeros(n: nat): (z: seq<char>)
    ensures |z| == n
    ensures forall i | 0 <= i < n :: z[i] == '\0'
  {
    seq(n, _ => '\0')
  }

  /** The C string a buffer holds: everything before its first NUL, or the whole buffer
      when it holds none. */
  function CStringOf(buf: seq<char>): (c: CStr)
    ensures |c| <= |buf| && c == buf[..|c|]
    ensures |c| < |buf| ==> buf[|c|] == '\0'
  {
    if |buf| == 0 || buf[0] == '\0' then [] else [buf[0]] + CStringOf(buf[1..])
  }

  /** A C string followed by a terminator (or by the end of the buffer) reads back as itself. */
  lemma {:induction false} CStringOfTerminated(c: CStr, rest: seq<char>)
    requires rest == [] || rest[0] == '\0'
    ensures CStringOf(c + rest) == c
    decreases |c|
  {
    if |c| == 0 {
      assert c + rest == rest;
    } else {
      assert c[0] in c;
      assert (c + rest)[0] == c[0];
      assert (c + rest)[1..] == c[1..] + rest;
      CStringOfTerminated(c[1..], rest);
      assert [c[0]] + c[1..] == c;
    }
  }

  /** `strncpy(dst, src, n)` into a buffer of exactly `n` characters: at most `n` characters
      of `src` are copied and the rest of the buffer is filled with NULs. */
  function StrNCpy(src: CStr, n: nat): (buf: seq<char>)
    ensures |buf| == n
    ensures CStringOf(buf) == if |src| < n then src else src[..n]
    ensures forall i | |src| <= i < n :: buf[i] == '\0'
  {
    if |src| >= n then
      CStringOfTerminated(src[..n], []);
      assert src[..n] + [] == src[..n];
      src[..n]
    else
      CStringOfTerminated(src, Zeros(n - |src|));
      src + Zeros(n - |src|)
  }

  // ---------------------------------------------------------------------------
  // strtok

  /** The pieces of `c` between occurrences of `d`, empty pieces included:
      "a::b" splits into "a", "" and "b". */
  function Split(c: seq<char>, d: char): (ps: seq<seq<char>>)
    ensures |ps| >= 1
    decreases |c|
  {
    if |c| == 0 then [[]]
    else
      var rest := Split(c[1..], d);
      if c[0] == d then [[]] + rest else [[c[0]] + rest[0]] + rest[1..]
  }

  function DropEmpty(ps: seq<seq<char>>): seq<seq<char>>
  {
    if |ps| == 0 then [] else (if ps[0] == [] then [] else [ps[0]]) + DropEmpty(ps[1..])
  }

  /** The tokens `strtok` yields from `c` with delimiter `d`, as a reference definition:
      the non-empty pieces between delimiters, in order. */
  function Tokens(c: seq<char>, d: char): seq<seq<char>>
  {
    DropEmpty(Split(c, d))
  }

  lemma {:induction false} DropEmptyAppend(a: seq<seq<char>>, b: seq<seq<char>>)
    ensures DropEmpty(a + b) == DropEmpty(a) + DropEmpty(b)
    decreases |a|
  {
    if |a| == 0 {
      assert a + b == b;
    } else {
      assert (a + b)[1..] == a[1..] + b;
      DropEmptyAppend(a[1..], b);
    }
  }

  /** A run of non-delimiters `c[i..j]` begins the first piece of `c[i..]`. */
  lemma {:induction false} SplitRun(c: seq<char>, i: nat, j: nat, d: char)
    requires i <= j <= |c|
    requires forall m | i <= m < j :: c[m] != d
    ensures Split(c[i..], d) == [c[i..j] + Split(c[j..], d)[0]] + Split(c[j..], d)[1..]
    decreases j - i
  {
    if i < j {
      SplitRun(c, i + 1, j, d);
      assert c[i..][1..] == c[i + 1..];
      assert [c[i]] + c[i + 1..j] == c[i..j];
      var s := Split(c[j..], d);
      calc {
        Split(c[i..], d);
        [[c[i]] + Split(c[i + 1..], d)[0]] + Split(c[i + 1..], d)[1..];
        [[c[i]] + (c[i + 1..j] + s[0])] + s[1..];
        { assert [c[i]] + (c[i + 1..j] + s[0]) == c[i..j] + s[0]; }
        [c[i..j] + s[0]] + s[1..];
      }
    } else {
      assert c[i..j] == [];
      var s := Split(c[j..], d);
      assert [] + s[0] == s[0];
      assert [s[0]] + s[1..] == s;
    }
  }

  /** Leading delimiters contribute no tokens. */
  lemma {:induction false} TokensSkip(c: seq<char>, i: nat, k: nat, d: char)
    requires i <= k <= |c|
    requires forall m | i <= m < k :: c[m] == d
    ensures Tokens(c[i..], d) == Tokens(c[k..], d)
    decreases k - i
  {
    if i < k {
      assert c[i..][1..] == c[i + 1..];
      assert Split(c[i..], d) == [[]] + Split(c[i + 1..], d);
      TokensSkip(c, i + 1, k, d);
    }
  }

  /** The index of the first character at or after `i` that is not `d`. */
  function SkipDelimiters(c: CStr, i: nat, d: char): (k: nat)
    requires i <= |c|
    ensures i <= k <= |c|
    ensures forall m | i <= m < k :: c[m] == d
    ensures k < |c| ==> c[k] != d
    decreases |c| - i
  {
    if i < |c| && c[i] == d then SkipDelimiters(c, i + 1, d) else i
  }

  /** The index of the first `d` at or after `i`, or the end of the string. */
  function TokenEnd(c: CStr, i: nat, d: char): (k: nat)
    requires i <= |c|
    ensures i <= k <= |c|
    ensures forall m | i <= m < k :: c[m] != d
    ensures k < |c| ==> c[k] == d
    decreases |c| - i
  {
    if i < |c| && c[i] != d then TokenEnd(c, i + 1, d) else i
  }

  /** What one `strtok` call does to the string `c` when it resumes at index `pos`: the token it
      returns (None for NULL), the index of the delimiter it overwrites with a NUL, and the
      index the next call resumes from. */
  datatype TokenScan = TokenScan(token: Option<CStr>, cut: Option<nat>, next: nat)

  function Strtok(c: CStr, pos: nat, d: char): (s: TokenScan)
    requires pos <= |c|
    ensures pos <= s.next <= |c|
    ensures s.token.None? ==> s.next == |c| && s.cut.None?
    ensures s.token.Some? ==> s.token.value != [] && d !in s.token.value
    ensures s.cut.Some? ==> pos <= s.cut.value < s.next && c[s.cut.value] == d
    ensures Tokens(c[pos..], d) == (if s.token.Some? then [s.token.value] else []) + Tokens(c[s.next..], d)
  {
    var i := SkipDelimiters(c, pos, d);
    TokensSkip(c, pos, i, d);
    if i == |c| then
      assert c[i..] == [];
      assert Split(c[i..], d) == [[]];
      assert DropEmpty([[]]) == [];
      TokenScan(None, None, |c|)
    else
      var j := TokenEnd(c, i, d);
      SplitRun(c, i, j, d);
      assert c[i] != d;
      assert i < j;
      if j < |c| then
        assert c[j..][1..] == c[j + 1..];
        assert Split(c[j..], d) == [[]] + Split(c[j + 1..], d);
        var rest := Split(c[j..], d);
        assert rest[0] == [] && rest[1..] == Split(c[j + 1..], d);
        assert c[i..j] + [] == c[i..j];
        assert Split(c[i..], d) == [c[i..j]] + Split(c[j + 1..], d);
        DropEmptyAppend([c[i..j]], Split(c[j + 1..], d));
        TokenScan(Some(c[i..j]), Some(j), j + 1)
      else
        assert c[j..] == [];
        assert Split(c[j..], d) == [[]];
        assert c[i..j] + [] == c[i..j];
        assert Split(c[i..], d) == [c[i..j]];
        TokenScan(Some(c[i..j]), None, j)
  }

  /** A piece free of the delimiter, followed by the delimiter, is the first piece. */
  lemma SplitJoin(a: seq<char>, b: seq<char>, d: char)
    requires d !in a
    ensures Split(a + [d] + b, d) == [a] + Split(b, d)
  {
    var c := a + [d] + b;
    forall m | 0 <= m < |a| ensures c[m] != d {
      assert c[m] == a[m];
    }
    SplitRun(c, 0, |a|, d);
    assert c[0..] == c;
    assert c[|a|..] == [d] + b;
    assert ([d] + b)[1..] == b;
    assert Split([d] + b, d) == [[]] + Split(b, d);
    assert c[0..|a|] == a;
    assert a + [] == a;
  }

  lemma SplitWhole(b: seq<char>, d: char)
    requires d !in b
    ensures Split(b, d) == [b]
  {
    forall m | 0 <= m < |b| ensures b[m] != d {
      assert b[m] in b;
    }
    SplitRun(b, 0, |b|, d);
    assert b[0..] == b && b[0..|b|] == b;
    assert b[|b|..] == [];
    assert Split([], d) == [[]];
    assert b + [] == b;
  }

  /** `a` and `b` are the two tokens of "a:b" when neither is empty nor holds the delimiter. */
  lemma TokensOfPair(a: seq<char>, b: seq<char>, d: char)
    requires a != [] && b != [] && d !in a && d !in b
    ensures Tokens(a + [d] + b, d) == [a, b]
  {
    SplitJoin(a, b, d);
    SplitWhole(b, d);
    assert Split(a + [d] + b, d) == [a, b];
    assert [a, b][1..] == [b];
    assert DropEmpty([b]) == [b];
  }

  // ---------------------------------------------------------------------------
  // atoi

  /** `isspace` in the C locale: space, tab, newline, vertical tab, form feed, carriage return. */
  predicate IsSpace(ch: char)
  {
    ch == ' ' || '\t' <= ch <= '\r'
  }

  predicate IsDigit(ch: char)
  {
    '0' as int <= ch as int <= '9' as int
  }

  function DigitValue(ch: char): nat
    requires IsDigit(ch)
  {
    ch as int - '0' as int
  }

  function DigitChar(v: nat): (ch: char)
    requires v < 10
    ensures IsDigit(ch) && DigitValue(ch) == v
  {
    ('0' as int + v) as char
  }

  /** The length of the longest prefix of `s` whose characters all satisfy `p`. */
  function PrefixLength(s: seq<char>, p: char -> bool): (n: nat)
    ensures n <= |s|
    ensures forall i | 0 <= i < n :: p(s[i])
    ensures n < |s| ==> !p(s[n])
  {
    if |s| == 0 || !p(s[0]) then 0 else 1 + PrefixLength(s[1..], p)
  }

  /** The value of a string of decimal digits, read most significant digit first. */
  function DigitsValue(ds: seq<char>): nat
    requires forall i | 0 <= i < |ds| :: IsDigit(ds[i])
    decreases |ds|
  {
    if |ds| == 0 then 0 else 10 * DigitsValue(ds[..|ds| - 1]) + DigitValue(ds[|ds| - 1])
  }

  /** The value of the digits that begin `t`; 0 when `t` does not begin with a digit. */
  function LeadingNumber(t: seq<char>): nat
  {
    DigitsValue(t[..PrefixLength(t, IsDigit)])
  }

  /** `atoi`: leading white space is skipped, then an optional sign and the longest run of
      decimal digits are read; text without digits there converts to 0. C leaves values
      outside `int` undefined; here they are the mathematical value. */
  function Atoi(s: seq<char>): int
  {
    var t := s[PrefixLength(s, IsSpace)..];
    if |t| > 0 && t[0] == '-' then 0 - LeadingNumber(t[1..]) as int
    else if |t| > 0 && t[0] == '+' then LeadingNumber(t[1..])
    else LeadingNumber(t)
  }

  /** The decimal numeral of `n`, without leading zeros. */
  function Decimal(n: nat): (s: CStr)
    ensures |s| >= 1
    ensures forall i | 0 <= i < |s| :: IsDigit(s[i])
    decreases n
  {
    (if n < 10 then [] else Decimal(n / 10)) + [DigitChar(n % 10)]
  }

  lemma {:induction false} DigitsValueDecimal(n: nat)
    ensures DigitsValue(Decimal(n)) == n
    decreases n
  {
    var front := if n < 10 then [] else Decimal(n / 10);
    assert Decimal(n) == front + [DigitChar(n % 10)];
    DigitsValueAppend(front, DigitChar(n % 10));
    if n >= 10 {
      DigitsValueDecimal(n / 10);
    }
  }

  lemma DigitsValueAppend(front: seq<char>, d: char)
    requires forall i | 0 <= i < |front| :: IsDigit(front[i])
    requires IsDigit(d)
    ensures DigitsValue(front + [d]) == 10 * DigitsValue(front) + DigitValue(d)
  {
    assert (front + [d])[..|front|] == front;
  }

  /** `PrefixLength` is the first position where `p` fails. */
  lemma {:induction false} PrefixLengthAt(s: seq<char>, p: char -> bool, k: nat)
    requires k <= |s|
    requires forall i | 0 <= i < k :: p(s[i])
    requires k == |s| || !p(s[k])
    ensures PrefixLength(s, p) == k
    decreases k
  {
    if k > 0 {
      PrefixLengthAt(s[1..], p, k - 1);
    }
  }

  lemma LeadingNumberOfNumeral(n: nat, rest: seq<char>)
    requires rest == [] || !IsDigit(rest[0])
    ensures LeadingNumber(Decimal(n) + rest) == n
  {
    var d := Decimal(n);
    PrefixLengthAt(d + rest, IsDigit, |d|);
    assert (d + rest)[..|d|] == d;
    DigitsValueDecimal(n);
  }

  lemma AtoiWithoutSpace(t: seq<char>)
    requires |t| > 0 && !IsSpace(t[0])
    ensures t[0] == '-' ==> Atoi(t) == 0 - LeadingNumber(t[1..])
    ensures t[0] == '+' ==> Atoi(t) == LeadingNumber(t[1..])
    ensures t[0] != '-' && t[0] != '+' ==> Atoi(t) == LeadingNumber(t)
  {
    PrefixLengthAt(t, IsSpace, 0);
    assert t[0..] == t;
  }

  /** `atoi` reads back every decimal numeral `Decimal` writes, and stops at the first
      character after it that is not a digit. */
  lemma AtoiReadsNumeral(n: nat, rest: seq<char>)
    requires rest == [] || !IsDigit(rest[0])
    ensures Atoi(Decimal(n) + rest) == n
  {
    var t := Decimal(n) + rest;
    LeadingNumberOfNumeral(n, rest);
    assert IsDigit(t[0]);
    AtoiWithoutSpace(t);
  }

  /** The same with a sign in front: '-' negates, '+' does not. */
  lemma AtoiReadsSignedNumeral(sign: char, n: nat, rest: seq<char>)
    requires sign == '+' || sign == '-'
    requires rest == [] || !IsDigit(rest[0])
    ensures Atoi([sign] + Decimal(n) + rest) == if sign == '-' then 0 - n else n
  {
    var t := [sign] + (Decimal(n) + rest);
    assert [sign] + Decimal(n) + rest == t && t[1..] == Decimal(n) + rest;
    LeadingNumberOfNumeral(n, rest);
    AtoiWithoutSpace(t);
  }

  lemma DecimalHasNoColon(n: nat)
    ensures ':' !in Decimal(n)
  {
    var s := Decimal(n);
    forall i | 0 <= i < |s| ensures s[i] != ':' {
      assert IsDigit(s[i]);
    }
  }
}
