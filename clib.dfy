// The pieces of the C library whose exact behaviour the identification core
// depends on: NUL-terminated strings, strspn/strcspn, strtok with its hidden
// cursor, decimal and hexadecimal conversions as sscanf, strtol and printf
// perform them.

module CLib {

  datatype Option<+T> = None | Some(value: T)

  const NUL: char := '\0'

  /** The C string held in a NUL-terminated buffer: everything before the first NUL. */
  function CString(buf: seq<char>): (s: seq<char>)
    ensures s <= buf
    ensures NUL !in s
    ensures |s| < |buf| ==> buf[|s|] == NUL
  {
    if buf == [] || buf[0] == NUL then [] else [buf[0]] + CString(buf[1..])
  }

  /** A buffer with no NUL in it holds itself as a C string. */
  lemma {:induction false} CStringNoNul(s: seq<char>)
    requires NUL !in s
    ensures CString(s) == s
  {
    if s != [] {
      assert NUL !in s[1..];
      CStringNoNul(s[1..]);
      assert s == [s[0]] + s[1..];
    }
  }

  // ---------------------------------------------------------------------------
  // strspn, strcspn, strtok

  /** strspn: the length of the longest prefix of `s` made only of characters in `accept`. */
  function Span(s: seq<char>, accept: set<char>): (n: nat)
    ensures n <= |s|
    ensures forall i :: 0 <= i < n ==> s[i] in accept
    ensures n < |s| ==> s[n] !in accept
  {
    if s == [] || s[0] !in accept then 0 else 1 + Span(s[1..], accept)
  }

  /** strcspn: the length of the longest prefix of `s` with no character in `reject`. */
  function CSpan(s: seq<char>, reject: set<char>): (n: nat)
    ensures n <= |s|
    ensures forall i :: 0 <= i < n ==> s[i] !in reject
    ensures n < |s| ==> s[n] in reject
  {
    if s == [] || s[0] in reject then 0 else 1 + CSpan(s[1..], reject)
  }

  /** The outcome of one strtok call: the token (NULL as None) and the text left after the saved position. */
  datatype Cut = Cut(token: Option<seq<char>>, rest: seq<char>)

  /** The token at the head of `s`, up to the first delimiter, and the text after that delimiter,
      which strtok overwrites with NUL and steps over. */
  function TakeToken(s: seq<char>, delims: set<char>): (r: (seq<char>, seq<char>))
    ensures FreeOf(r.0, delims)
    ensures s == [] ==> r == ([], [])
    ensures s != [] ==> |r.1| < |s|
    ensures s != [] && s[0] !in delims ==> |r.0| > 0
  {
    if s == [] then ([], [])
    else if s[0] in delims then ([], s[1..])
    else
      var r' := TakeToken(s[1..], delims);
      ([s[0]] + r'.0, r'.1)
  }

  /** glibc's strtok on the text at its saved position: skip the leading delimiters; if nothing is
      left the answer is NULL; otherwise the token is the longest run of non-delimiters, and the one
      delimiter after it (if any) is consumed. */
  function Strtok(s: seq<char>, delims: set<char>): (r: Cut)
    ensures r.token.None? ==> r.rest == []
    ensures r.token.Some? ==> |r.token.value| > 0 && FreeOf(r.token.value, delims) && |r.rest| < |s|
  {
    if s == [] then Cut(None, [])
    else if s[0] in delims then Strtok(s[1..], delims)
    else
      var r := TakeToken(s, delims);
      Cut(Some(r.0), r.1)
  }

  predicate FreeOf(t: seq<char>, delims: set<char>)
  {
    forall i :: 0 <= i < |t| ==> t[i] !in delims
  }

  /** strtok returns NULL exactly when the remaining text is nothing but delimiters. */
  lemma {:induction false} StrtokNone(s: seq<char>, delims: set<char>)
    ensures Strtok(s, delims).token.None? <==> forall i :: 0 <= i < |s| ==> s[i] in delims
  {
    if s != [] && s[0] in delims {
      StrtokNone(s[1..], delims);
      assert forall i :: 1 <= i < |s| ==> s[i] == s[1..][i - 1];
    }
  }

  lemma {:induction false} TakeTokenOf(token: seq<char>, tail: seq<char>, delims: set<char>)
    requires FreeOf(token, delims)
    requires tail == [] || tail[0] in delims
    ensures TakeToken(token + tail, delims) == (token, if tail == [] then [] else tail[1..])
  {
    if token == [] {
      assert token + tail == tail;
    } else {
      assert (token + tail)[1..] == token[1..] + tail;
      TakeTokenOf(token[1..], tail, delims);
      assert [token[0]] + token[1..] == token;
    }
  }

  /** Reference description of a strtok call: delimiters, then a non-empty token free of
      delimiters, then either the end of the text or a delimiter that is consumed. */
  lemma {:induction false} StrtokOf(lead: seq<char>, token: seq<char>, tail: seq<char>, delims: set<char>)
    requires forall i :: 0 <= i < |lead| ==> lead[i] in delims
    requires |token| > 0 && FreeOf(token, delims)
    requires tail == [] || tail[0] in delims
    ensures Strtok(lead + token + tail, delims) == Cut(Some(token), if tail == [] then [] else tail[1..])
  {
    if lead == [] {
      assert lead + token + tail == token + tail;
      TakeTokenOf(token, tail, delims);
    } else {
      assert (lead + token + tail)[1..] == lead[1..] + token + tail;
      StrtokOf(lead[1..], token, tail, delims);
    }
  }

  /** strtok on text that starts with its token, with no delimiters before it. */
  lemma LeadingToken(token: seq<char>, tail: seq<char>, delims: set<char>)
    requires |token| > 0 && FreeOf(token, delims)
    requires tail == [] || tail[0] in delims
    ensures Strtok(token + tail, delims).token == Some(token)
  {
    assert token + tail == [] + token + tail;
    StrtokOf([], token, tail, delims);
  }

  /** strtok cuts the token where strcspn stops: the token is the strcspn prefix, and the
      delimiter after it, if any, is consumed. */
  lemma {:induction false} TakeTokenSpan(s: seq<char>, delims: set<char>)
    ensures var n := CSpan(s, delims);
      TakeToken(s, delims) == (s[..n], if n == |s| then [] else s[n + 1..])
  {
    if s != [] && s[0] !in delims {
      TakeTokenSpan(s[1..], delims);
      var n' := CSpan(s[1..], delims);
      assert s[..n' + 1] == [s[0]] + s[1..][..n'];
      assert n' < |s[1..]| ==> s[n' + 2..] == s[1..][n' + 1..];
    }
  }

  /** glibc's strtok as strspn followed by strcspn: skip the strspn prefix of delimiters; NULL
      when nothing is left; otherwise the token is the strcspn prefix of what follows. */
  lemma {:induction false} StrtokSpans(s: seq<char>, delims: set<char>)
    ensures var a := Span(s, delims);
      var t := s[a..];
      var n := CSpan(t, delims);
      Strtok(s, delims) == if a == |s| then Cut(None, []) else Cut(Some(t[..n]), if n == |t| then [] else t[n + 1..])
  {
    if s != [] && s[0] in delims {
      StrtokSpans(s[1..], delims);
      assert s[Span(s, delims)..] == s[1..][Span(s[1..], delims)..];
    } else if s != [] {
      assert s[0..] == s;
      TakeTokenSpan(s, delims);
    }
  }

  lemma AppendAssoc<T>(a: seq<T>, b: seq<T>, c: seq<T>)
    ensures a + (b + c) == (a + b) + c
  {
  }

  /** A strtok cursor: glibc keeps the position after the last token in a hidden static
      variable; `rest` is the text from that position to the terminating NUL. */
  class Tokenizer {
    var rest: seq<char>

    /** strtok(s, ...) with a non-NULL `s` restarts the cursor at `s`. */
    constructor (s: seq<char>)
      ensures rest == s
    {
      rest := s;
    }

    /** strtok(NULL, delims): the next token from the saved position. */
    method Next(delims: set<char>) returns (token: Option<seq<char>>)
      modifies this
      ensures Cut(token, rest) == Strtok(old(rest), delims)
    {
      var s := rest;
      var i := 0;
      while i < |s| && s[i] in delims
        invariant i <= |s|
        invariant Strtok(s[i..], delims) == Strtok(s, delims)
      {
        assert s[i..][1..] == s[i + 1..];
        i := i + 1;
      }
      if i == |s| {
        token, rest := None, [];
        return;
      }
      var j := i;
      assert s[i..j] == [];
      while j < |s| && s[j] !in delims
        invariant i <= j <= |s|
        invariant TakeToken(s[i..], delims).0 == s[i..j] + TakeToken(s[j..], delims).0
        invariant TakeToken(s[i..], delims).1 == TakeToken(s[j..], delims).1
      {
        var t := TakeToken(s[j + 1..], delims);
        assert TakeToken(s[j..], delims) == ([s[j]] + t.0, t.1) by {
          assert s[j..][1..] == s[j + 1..];
        }
        assert s[i..j] + ([s[j]] + t.0) == s[i..j + 1] + t.0 by {
          assert s[i..j + 1] == s[i..j] + [s[j]];
          AppendAssoc(s[i..j], [s[j]], t.0);
        }
        j := j + 1;
      }
      assert TakeToken(s[j..], delims) == ([], if j == |s| then [] else s[j + 1..]) by {
        assert j < |s| ==> s[j..][1..] == s[j + 1..];
      }
      assert s[i..j] + [] == s[i..j];
      token := Some(s[i..j]);
      rest := if j == |s| then [] else s[j + 1..];
    }
  }

  /** Every token successive strtok calls return from `s` before the first NULL. */
  function Tokens(s: seq<char>, delims: set<char>): (ts: seq<seq<char>>)
    decreases |s|
  {
    var c := Strtok(s, delims);
    if c.token.None? then [] else [c.token.value] + Tokens(c.rest, delims)
  }

  /** The text left after `k` strtok calls with the same delimiters. */
  function RestAfter(s: seq<char>, delims: set<char>, k: nat): seq<char>
  {
    if k == 0 then s else Strtok(RestAfter(s, delims, k - 1), delims).rest
  }

  /** After `k` calls, the tokens still to come are those of the whole text past the first `k`. */
  lemma {:induction false} TokensAfter(s: seq<char>, delims: set<char>, k: nat)
    ensures var ts := Tokens(s, delims);
      Tokens(RestAfter(s, delims, k), delims) == ts[if k < |ts| then k else |ts|..]
  {
    if k > 0 {
      TokensAfter(s, delims, k - 1);
      var ts := Tokens(s, delims);
      var r := RestAfter(s, delims, k - 1);
      var c := Strtok(r, delims);
      if c.token.None? {
        assert Tokens(c.rest, delims) == [];
      } else {
        assert ts[k - 1..] == [c.token.value] + Tokens(c.rest, delims);
        assert ts[k..] == ts[k - 1..][1..];
      }
    }
  }

  /** The (k+1)-th strtok call returns the k-th token of the text, or NULL when there are no
      more than `k` tokens. */
  lemma NthToken(s: seq<char>, delims: set<char>, k: nat)
    ensures var ts := Tokens(s, delims);
      Strtok(RestAfter(s, delims, k), delims).token == if k < |ts| then Some(ts[k]) else None
  {
    TokensAfter(s, delims, k);
    var ts := Tokens(s, delims);
    if k < |ts| {
      assert ts[k..][0] == ts[k];
    }
  }

  /** Tokens joined with one separator each. */
  function Join(ts: seq<seq<char>>, sep: char): seq<char>
  {
    if ts == [] then [] else if |ts| == 1 then ts[0] else ts[0] + [sep] + Join(ts[1..], sep)
  }

  /** Splitting undoes joining: non-empty tokens free of delimiters, joined with one
      delimiter each and preceded by any run of delimiters, come back out of strtok unchanged. */
  lemma {:induction false} TokensOfJoin(lead: seq<char>, ts: seq<seq<char>>, sep: char, delims: set<char>)
    requires sep in delims
    requires forall i :: 0 <= i < |lead| ==> lead[i] in delims
    requires forall k :: 0 <= k < |ts| ==> |ts[k]| > 0 && FreeOf(ts[k], delims)
    ensures Tokens(lead + Join(ts, sep), delims) == ts
    decreases |ts|
  {
    var s := lead + Join(ts, sep);
    if ts == [] {
      assert s == lead;
      StrtokNone(s, delims);
    } else if |ts| == 1 {
      assert s == lead + ts[0] + [];
      StrtokOf(lead, ts[0], [], delims);
      StrtokNone([], delims);
    } else {
      var tail := [sep] + Join(ts[1..], sep);
      assert s == lead + ts[0] + tail;
      StrtokOf(lead, ts[0], tail, delims);
      assert tail[1..] == [] + Join(ts[1..], sep);
      TokensOfJoin([], ts[1..], sep, delims);
    }
  }

  // ---------------------------------------------------------------------------
  // Decimal numbers

  const DIGITS: set<char> := {'0', '1', '2', '3', '4', '5', '6', '7', '8', '9'}

  /** The characters C's isspace accepts: space, tab, newline, vertical tab, form feed, return. */
  const SPACES: set<char> := {' ', '\t', '\n', 11 as char, 12 as char, '\r'}

  const ULONG_MAX: nat := 0xFFFF_FFFF_FFFF_FFFF
  const LONG_MAX: int := 0x7FFF_FFFF_FFFF_FFFF
  const LONG_MIN: int := -0x8000_0000_0000_0000

  predicate AllDigits(ds: seq<char>)
  {
    forall i :: 0 <= i < |ds| ==> ds[i] in DIGITS
  }

  function DigitValue(c: char): (d: nat)
    requires c in DIGITS
    ensures d < 10
  {
    c as int - '0' as int
  }

  function DigitChar(d: nat): (c: char)
    requires d < 10
    ensures c in DIGITS && DigitValue(c) == d
  {
    (d + '0' as int) as char
  }

  /** The value of a string of decimal digits (0 for the empty string). */
  function Decimal(ds: seq<char>): nat
    requires AllDigits(ds)
  {
    if ds == [] then 0 else 10 * Decimal(ds[..|ds| - 1]) + DigitValue(ds[|ds| - 1])
  }

  /** The shortest decimal spelling of `n`, as printf's %u writes it. */
  function DecimalString(n: nat): (ds: seq<char>)
    ensures |ds| > 0 && AllDigits(ds)
  {
    if n < 10 then [DigitChar(n)] else DecimalString(n / 10) + [DigitChar(n % 10)]
  }

  lemma {:induction false} DecimalRoundTrip(n: nat)
    ensures Decimal(DecimalString(n)) == n
  {
    var ds := DecimalString(n);
    if n >= 10 {
      DecimalRoundTrip(n / 10);
      assert ds[..|ds| - 1] == DecimalString(n / 10);
    }
  }

  /** The leading decimal digits of `s`. */
  function LeadingDigits(s: seq<char>): (ds: seq<char>)
    ensures AllDigits(ds) && ds <= s
  {
    s[..Span(s, DIGITS)]
  }

  /** The digits at the head of `ds + rest`, when `rest` does not start with a digit, are `ds`. */
  lemma LeadingDigitsOf(ds: seq<char>, rest: seq<char>)
    requires AllDigits(ds)
    requires rest == [] || rest[0] !in DIGITS
    ensures LeadingDigits(ds + rest) == ds
  {
    var s := ds + rest;
    assert forall i :: 0 <= i < |ds| ==> s[i] == ds[i];
    assert rest != [] ==> s[|ds|] == rest[0];
    assert Span(s, DIGITS) == |ds|;
  }

  /** What sscanf's %u-family conversions store for text that starts with a digit: the value of the
      leading digits as strtoul reads it (saturating at ULONG_MAX), truncated to the destination's
      width, whose number of values is `modulus` (256 for %hhu, 2^32 for %u). */
  function ScanUnsigned(s: seq<char>, modulus: nat): (v: nat)
    requires modulus > 0
    ensures v < modulus
  {
    var n := Decimal(LeadingDigits(s));
    (if n > ULONG_MAX then ULONG_MAX else n) % modulus
  }

  /** sscanf's %u-family conversions read back the decimal spelling of any value the destination
      holds, stopping at the first character that is not a digit. */
  lemma ScanUnsignedDecimal(n: nat, after: seq<char>, modulus: nat)
    requires n < modulus && n <= ULONG_MAX
    requires after == [] || after[0] !in DIGITS
    ensures ScanUnsigned(DecimalString(n) + after, modulus) == n
  {
    var ds := DecimalString(n);
    assert LeadingDigits(ds + after) == ds by {
      LeadingDigitsOf(ds, after);
    }
    assert Decimal(ds) == n by {
      DecimalRoundTrip(n);
    }
    ModSmall(n, modulus);
  }

  lemma ModSmall(n: nat, modulus: nat)
    requires n < modulus
    ensures n % modulus == n
  {
  }

  /** strtol(s, NULL, 10): white space, an optional sign, then the longest run of digits; 0 when
      there is no digit; results beyond the range of long are clamped to LONG_MIN or LONG_MAX. */
  function Strtol(s: seq<char>): (v: int)
    ensures LONG_MIN <= v <= LONG_MAX
  {
    var t := s[Span(s, SPACES)..];
    var negative := |t| > 0 && t[0] == '-';
    var u := if |t| > 0 && (t[0] == '-' || t[0] == '+') then t[1..] else t;
    var n: int := Decimal(LeadingDigits(u));
    if negative then (if n > -LONG_MIN then LONG_MIN else -n)
    else (if n > LONG_MAX then LONG_MAX else n)
  }

  /** strtol reads back the decimal spelling of any number that fits in a long. */
  lemma StrtolDecimalString(n: nat)
    requires n <= LONG_MAX
    ensures Strtol(DecimalString(n)) == n
  {
    StrtolDecimal(n, []);
    assert DecimalString(n) + [] == DecimalString(n);
  }

  /** Spelling a number in decimal and reading it back with strtol gives the number, as long as
      it fits in a long; the reading stops at the first character that is not a digit. */
  lemma StrtolDecimal(n: nat, after: seq<char>)
    requires n <= LONG_MAX
    requires after == [] || after[0] !in DIGITS
    ensures Strtol(DecimalString(n) + after) == n
  {
    var ds := DecimalString(n);
    var s := ds + after;
    assert s[0] == ds[0];
    assert Span(s, SPACES) == 0;
    assert s[0..] == s;
    LeadingDigitsOf(ds, after);
    DecimalRoundTrip(n);
  }

  // ---------------------------------------------------------------------------
  // Upper-case hexadecimal, as printf's %X writes it

  predicate IsUpperHex(c: char)
  {
    '0' <= c <= '9' || 'A' <= c <= 'F'
  }

  function HexChar(d: nat): (c: char)
    requires d < 16
    ensures IsUpperHex(c)
  {
    if d < 10 then (d + '0' as int) as char else (d - 10 + 'A' as int) as char
  }

  function HexDigitValue(c: char): (d: nat)
    requires IsUpperHex(c)
    ensures d < 16
  {
    if '0' <= c <= '9' then c as int - '0' as int else c as int - 'A' as int + 10
  }

  function Pow16(k: nat): (p: nat)
    ensures p >= 1
  {
    if k == 0 then 1 else 16 * Pow16(k - 1)
  }

  /** The last `w` hexadecimal digits of `n`, leading zeros included. */
  function HexFixed(n: nat, w: nat): (s: seq<char>)
    ensures |s| == w
    ensures forall i :: 0 <= i < |s| ==> IsUpperHex(s[i])
  {
    if w == 0 then [] else HexFixed(n / 16, w - 1) + [HexChar(n % 16)]
  }

  /** How many digits %X prints for `n` (at least one, for zero). */
  function HexWidth(n: nat): (k: nat)
    ensures k >= 1
  {
    if n < 16 then 1 else 1 + HexWidth(n / 16)
  }

  function Max(a: nat, b: nat): nat
  {
    if a < b then b else a
  }

  /** printf("%0<w>X", n): the hexadecimal digits of `n`, zero-padded on the left to at least `w`
      characters; `w` is a minimum, never a cut-off. */
  function Hex(n: nat, w: nat): (s: seq<char>)
  {
    HexFixed(n, Max(w, HexWidth(n)))
  }

  /** The value of a string of upper-case hexadecimal digits. */
  function HexValue(s: seq<char>): nat
    requires forall i :: 0 <= i < |s| ==> IsUpperHex(s[i])
  {
    if s == [] then 0 else 16 * HexValue(s[..|s| - 1]) + HexDigitValue(s[|s| - 1])
  }

  /** `n` needs exactly HexWidth(n) digits: fewer cannot hold it, and the leading one is not zero. */
  lemma {:induction false} HexWidthBounds(n: nat)
    ensures n < Pow16(HexWidth(n))
    ensures HexWidth(n) > 1 ==> Pow16(HexWidth(n) - 1) <= n
  {
    if n >= 16 {
      HexWidthBounds(n / 16);
    }
  }

  /** When `n` fits in `w` digits, %X needs no more than `w` of them. */
  lemma {:induction false} HexWidthAtMost(n: nat, w: nat)
    requires w >= 1 && n < Pow16(w)
    ensures HexWidth(n) <= w
  {
    if n >= 16 {
      assert w > 1;
      assert n / 16 < Pow16(w - 1);
      HexWidthAtMost(n / 16, w - 1);
    }
  }

  /** Reading back the fixed-width digits of a number that fits gives the number. */
  lemma {:induction false} HexFixedValue(n: nat, w: nat)
    requires n < Pow16(w)
    ensures HexValue(HexFixed(n, w)) == n
  {
    if w > 0 {
      var s := HexFixed(n, w);
      assert s[..|s| - 1] == HexFixed(n / 16, w - 1);
      assert n / 16 < Pow16(w - 1);
      HexFixedValue(n / 16, w - 1);
      assert HexDigitValue(HexChar(n % 16)) == n % 16;
    } else {
      assert n == 0;
    }
  }

  /** printf's %X loses nothing: its digits read back as the number printed. */
  lemma HexRoundTrip(n: nat, w: nat)
    ensures HexValue(Hex(n, w)) == n
  {
    HexWidthBounds(n);
    var k := Max(w, HexWidth(n));
    PowMonotone(HexWidth(n), k);
    HexFixedValue(n, k);
  }

  lemma {:induction false} PowMonotone(a: nat, b: nat)
    requires a <= b
    ensures Pow16(a) <= Pow16(b)
  {
    if a < b {
      PowMonotone(a, b - 1);
    }
  }

  /** The width of %0<w>X: exactly `w` when the number fits in `w` digits, more when it does not. */
  lemma HexLength(n: nat, w: nat)
    requires w >= 1
    ensures n < Pow16(w) ==> |Hex(n, w)| == w
    ensures n >= Pow16(w) ==> |Hex(n, w)| > w
  {
    HexWidthBounds(n);
    if n < Pow16(w) {
      HexWidthAtMost(n, w);
    } else if HexWidth(n) <= w {
      PowMonotone(HexWidth(n), w);
    }
  }

  /** Fixed-width hexadecimal digits of a number split byte-wise: the low byte gives the last two
      digits, the rest of the number the ones before. */
  lemma HexFixedBytes(a: nat, b: nat, w: nat)
    requires b < 256
    ensures HexFixed(a * 256 + b, w + 2) == HexFixed(a, w) + HexFixed(b, 2)
  {
    var n := a * 256 + b;
    assert n / 16 == a * 16 + b / 16;
    assert n % 16 == b % 16;
    assert (a * 16 + b / 16) / 16 == a;
    assert (a * 16 + b / 16) % 16 == b / 16;
    assert HexFixed(n / 16, w + 1) == HexFixed(a, w) + [HexChar(b / 16)];
    assert b / 16 / 16 == 0 && (b / 16) % 16 == b / 16;
    assert HexFixed(b / 16, 1) == HexFixed(0, 0) + [HexChar(b / 16)];
  }
}
