/**
 * The text handling a guess goes through before it reaches the game:
 * `str::trim` followed by `u32::from_str` (src/main.rs:178), and the
 * decimal form `{}` gives a `u32` when a guess is written to the history.
 */
module Text {
  import opened Wrappers
  import opened UInt32

  // ---------------------------------------------------------------------
  // Whitespace and trimming
  // ---------------------------------------------------------------------

  /** Rust's `char::is_whitespace`: the characters with the Unicode White_Space property. */
  predicate IsWhitespace(c: char) {
    var n := c as int;
    (0x09 <= n <= 0x0D) || n == 0x20 || n == 0x85 || n == 0xA0 || n == 0x1680
    || (0x2000 <= n <= 0x200A) || n == 0x2028 || n == 0x2029 || n == 0x202F
    || n == 0x205F || n == 0x3000
  }

  predicate AllWhitespace(s: string) {
    forall k :: 0 <= k < |s| ==> IsWhitespace(s[k])
  }

  /** A string with no whitespace at either end. */
  predicate IsTrimmed(t: string) {
    t == [] || (!IsWhitespace(t[0]) && !IsWhitespace(t[|t| - 1]))
  }

  /** `str::trim_start`: drops the leading whitespace. */
  function TrimStart(s: string): (t: string)
    ensures |t| <= |s| && t == s[|s| - |t|..]
    ensures AllWhitespace(s[..|s| - |t|])
    ensures t == [] || !IsWhitespace(t[0])
  {
    if s != [] && IsWhitespace(s[0]) then
      var t := TrimStart(s[1..]);
      assert s[..|s| - |t|] == [s[0]] + s[1..][..|s| - 1 - |t|];
      t
    else
      s
  }

  /** `str::trim_end`: drops the trailing whitespace. */
  function TrimEnd(s: string): (t: string)
    ensures |t| <= |s| && t == s[..|t|]
    ensures AllWhitespace(s[|t|..])
    ensures t == [] || !IsWhitespace(t[|t| - 1])
  {
    if s != [] && IsWhitespace(s[|s| - 1]) then
      var t := TrimEnd(s[..|s| - 1]);
      assert s[|t|..] == s[..|s| - 1][|t|..] + [s[|s| - 1]];
      t
    else
      s
  }

  /** `str::trim`: drops the whitespace at both ends. */
  function Trim(s: string): (t: string)
    ensures |t| <= |s| && IsTrimmed(t)
  {
    TrimEnd(TrimStart(s))
  }

  /**
   * The trimmed text is a piece of the original, and everything cut off on
   * either side of it is whitespace.
   */
  lemma TrimCutsOnlyWhitespace(s: string) returns (i: nat)
    ensures i + |Trim(s)| <= |s| && Trim(s) == s[i..i + |Trim(s)|]
    ensures AllWhitespace(s[..i]) && AllWhitespace(s[i + |Trim(s)|..])
  {
    var u := TrimStart(s);
    var t := TrimEnd(u);
    i := |s| - |u|;
    SliceOfSuffix(s, i, |t|);
  }

  /** Taking a prefix or a suffix of the suffix `s[i..]` is taking a slice of `s`. */
  lemma SliceOfSuffix(s: string, i: nat, n: nat)
    requires i + n <= |s|
    ensures s[i..][..n] == s[i..i + n] && s[i..][n..] == s[i + n..]
  {
  }

  lemma {:induction false} TrimStartPadded(pre: string, u: string)
    requires AllWhitespace(pre) && (u == [] || !IsWhitespace(u[0]))
    ensures TrimStart(pre + u) == u
  {
    if pre != [] {
      assert (pre + u)[1..] == pre[1..] + u;
      TrimStartPadded(pre[1..], u);
    }
  }

  lemma {:induction false} TrimEndPadded(u: string, post: string)
    requires AllWhitespace(post) && (u == [] || !IsWhitespace(u[|u| - 1]))
    ensures TrimEnd(u + post) == u
  {
    if post != [] {
      var s := u + post;
      assert s[..|s| - 1] == u + post[..|post| - 1];
      TrimEndPadded(u, post[..|post| - 1]);
    }
  }

  /** Trimming strips exactly the surrounding whitespace and nothing else. */
  lemma TrimOfPadded(pre: string, t: string, post: string)
    requires AllWhitespace(pre) && AllWhitespace(post) && IsTrimmed(t)
    ensures Trim(pre + t + post) == t
  {
    if t != [] {
      assert pre + t + post == pre + (t + post);
      TrimStartPadded(pre, t + post);
      TrimEndPadded(t, post);
    }
  }

  // ---------------------------------------------------------------------
  // Decimal digits
  // ---------------------------------------------------------------------

  predicate IsDigit(c: char) {
    '0' <= c <= '9'
  }

  predicate AllDigits(s: string) {
    forall k :: 0 <= k < |s| ==> IsDigit(s[k])
  }

  function DigitValue(c: char): (v: nat)
    requires IsDigit(c)
    ensures v < 10
  {
    c as int - '0' as int
  }

  function DigitChar(v: nat): (c: char)
    requires v < 10
    ensures IsDigit(c) && DigitValue(c) == v
  {
    ('0' as int + v) as char
  }

  /** The positional (base 10) value of a string of digits. */
  function Decimal(ds: string): nat
    requires AllDigits(ds)
  {
    if ds == [] then 0 else Decimal(ds[..|ds| - 1]) * 10 + DigitValue(ds[|ds| - 1])
  }

  /**
   * The `{}` formatting of a number: its shortest decimal form, never
   * empty, without leading zeros, and worth exactly `n`.
   */
  function ToDecimal(n: nat): (s: string)
    ensures 1 <= |s| && AllDigits(s) && Decimal(s) == n
    ensures s[0] == '0' ==> s == "0"
  {
    if n < 10 then
      [DigitChar(n)]
    else
      var p := ToDecimal(n / 10);
      var s := p + [DigitChar(n % 10)];
      assert s[..|s| - 1] == p;
      s
  }

  /** Leading zeros do not change the value of a digit string. */
  lemma {:induction false} LeadingZeros(z: string, ds: string)
    requires forall k :: 0 <= k < |z| ==> z[k] == '0'
    requires AllDigits(ds)
    ensures AllDigits(z + ds) && Decimal(z + ds) == Decimal(ds)
  {
    if ds == [] {
      assert z + ds == z;
      if z != [] {
        assert z[..|z| - 1] + [] == z[..|z| - 1];
        LeadingZeros(z[..|z| - 1], []);
      }
    } else {
      var p := ds[..|ds| - 1];
      assert (z + ds)[..|z + ds| - 1] == z + p;
      LeadingZeros(z, p);
    }
  }

  // ---------------------------------------------------------------------
  // u32::from_str
  // ---------------------------------------------------------------------

  /**
   * The digit loop of Rust's `from_str_radix` for `u32` in base 10: digit by
   * digit from the left, reject a non-digit, and multiply by ten and add the
   * digit with checked arithmetic, failing on overflow. It succeeds exactly
   * when every character is a digit and the value fits in a `u32`.
   */
  function CheckedDecimal(ds: string): (r: Option<u32>)
    ensures r.Some? <==> AllDigits(ds) && Decimal(ds) <= MAX
    ensures r.Some? ==> r.value == Decimal(ds)
  {
    if ds == [] then
      Some(0)
    else
      var p, c := ds[..|ds| - 1], ds[|ds| - 1];
      assert AllDigits(ds) <==> AllDigits(p) && IsDigit(c) by {
        assert forall k :: 0 <= k < |p| ==> p[k] == ds[k];
      }
      match CheckedDecimal(p)
      case None => None
      case Some(acc) =>
        if !IsDigit(c) then None
        else if acc * 10 > MAX then None
        else if acc * 10 + DigitValue(c) > MAX then None
        else Some(acc * 10 + DigitValue(c))
  }

  /**
   * Rust's `u32::from_str` (base 10): an optional `+` followed by one or
   * more ASCII digits whose value is at most 4294967295. Anything else is
   * rejected: the empty string, a lone sign, a `-`, any other character,
   * and a value that does not fit.
   */
  function ParseU32(s: string): (r: Option<u32>)
    ensures r.Some? <==>
              (|s| >= 1 && AllDigits(s) && Decimal(s) <= MAX)
              || (|s| >= 2 && s[0] == '+' && AllDigits(s[1..]) && Decimal(s[1..]) <= MAX)
    ensures r.Some? ==> r.value == if s[0] == '+' then Decimal(s[1..]) else Decimal(s)
  {
    if s == [] then None
    else if |s| == 1 && (s[0] == '+' || s[0] == '-') then None
    else if s[0] == '+' then CheckedDecimal(s[1..])
    else CheckedDecimal(s)
  }

  /** The text of the guess field as the game reads it: trimmed, then parsed as a `u32`. */
  function ReadGuess(input: string): Option<u32> {
    ParseU32(Trim(input))
  }

  /** Parsing undoes formatting: every `u32` reads back from its decimal form, with or without `+`. */
  lemma ParseToDecimal(n: nat)
    ensures ParseU32(ToDecimal(n)) == if n <= MAX then Some(n) else None
    ensures ParseU32("+" + ToDecimal(n)) == if n <= MAX then Some(n) else None
  {
    var s := "+" + ToDecimal(n);
    assert s[1..] == ToDecimal(n);
  }

  /** A character that is neither a digit nor a leading `+` makes the parse fail. */
  lemma NonDigitRejected(s: string, k: nat)
    requires k < |s| && !IsDigit(s[k]) && !(k == 0 && s[k] == '+')
    ensures ParseU32(s) == None
  {
    if k > 0 {
      assert s[1..][k - 1] == s[k];
    }
  }

  /**
   * Zeros typed in front of a guess do not change how it parses: `007` reads
   * as `7`, and text that does not parse still does not parse after zeros.
   */
  lemma LeadingZerosIgnored(z: string, ds: string)
    requires forall k :: 0 <= k < |z| ==> z[k] == '0'
    requires ds != [] && ds[0] != '+'
    ensures ParseU32(z + ds) == ParseU32(ds)
  {
    var s := z + ds;
    assert s[0] == if z == [] then ds[0] else '0';
    if AllDigits(ds) {
      LeadingZeros(z, ds);
    } else {
      var k :| 0 <= k < |ds| && !IsDigit(ds[k]);
      assert s[|z| + k] == ds[k];
      NonDigitRejected(s, |z| + k);
      NonDigitRejected(ds, k);
    }
  }

  /** What the game reads from a text field: formatted number, any padding. */
  lemma ReadPaddedNumber(pre: string, n: nat, post: string)
    requires AllWhitespace(pre) && AllWhitespace(post)
    ensures ReadGuess(pre + ToDecimal(n) + post) == if n <= MAX then Some(n) else None
  {
    TrimOfPadded(pre, ToDecimal(n), post);
    ParseToDecimal(n);
  }

  /** Blank text (the empty string included) never reads as a number. */
  lemma BlankRejected(s: string)
    requires AllWhitespace(s)
    ensures Trim(s) == [] && ReadGuess(s) == None
  {
    TrimOfPadded(s, [], []);
    assert s + [] + [] == s;
  }

  /**
   * Once the padding is cut off, a character that is neither a digit nor a
   * leading `+` (a letter, a `-` sign, a decimal point, a blank between
   * digits) makes the guess unreadable.
   */
  lemma StrayCharacterRejected(pre: string, t: string, post: string, k: nat)
    requires AllWhitespace(pre) && AllWhitespace(post) && IsTrimmed(t)
    requires k < |t| && !IsDigit(t[k]) && !(k == 0 && t[k] == '+')
    ensures ReadGuess(pre + t + post) == None
  {
    TrimOfPadded(pre, t, post);
    NonDigitRejected(t, k);
  }
}
