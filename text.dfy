/** The few JavaScript string built-ins the generator relies on: `Number.prototype.toString(radix)`
    for non-negative integers, `String.prototype.padStart` and `Array.prototype.join`. */
module Text {

  const Digits: string := "0123456789abcdef"

  /** The lower-case digit character for `d`, as `toString(radix)` writes it. */
  function DigitChar(d: nat): (ch: char)
    requires d < 16
    ensures ch in Digits
  {
    Digits[d]
  }

  /** The value of a digit character (lower-case hexadecimal letters included); 0 for anything else. */
  function DigitValue(ch: char): nat {
    if '0' <= ch <= '9' then (ch - '0') as nat
    else if 'a' <= ch <= 'f' then (ch - 'a') as nat + 10
    else 0
  }

  predicate IsDigitOf(ch: char, base: nat)
    requires base <= 16
  {
    ch in Digits[..base]
  }

  /** `n.toString(base)` for a non-negative integer `n`: most significant digit first, no leading zeros. */
  function ToBase(n: nat, base: nat): (s: string)
    requires 2 <= base <= 16
    decreases n
  {
    if n < base then [DigitChar(n)] else ToBase(n / base, base) + [DigitChar(n % base)]
  }

  /** Reads a string of digits back, most significant first: the reference that `ToBase` is inverted by. */
  function FromBase(s: string, base: nat): nat
    decreases |s|
  {
    if s == [] then 0 else FromBase(s[..|s| - 1], base) * base + DigitValue(s[|s| - 1])
  }

  /** `n.toString()` (decimal). */
  function NatToString(n: nat): string {
    ToBase(n, 10)
  }

  /** `s.padStart(len, fill)` with a one-character fill. */
  function PadStart(s: string, len: nat, fill: char): (r: string)
    ensures |r| == if |s| >= len then |s| else len
    ensures r[|r| - |s|..] == s
    ensures forall i :: 0 <= i < |r| - |s| ==> r[i] == fill
  {
    if |s| >= len then s else seq(len - |s|, _ => fill) + s
  }

  /** `parts.join(sep)`. */
  function Join(parts: seq<string>, sep: string): string
    decreases |parts|
  {
    if parts == [] then ""
    else if |parts| == 1 then parts[0]
    else parts[0] + sep + Join(parts[1..], sep)
  }

  predicate NoChar(s: string, ch: char) {
    forall i :: 0 <= i < |s| ==> s[i] != ch
  }

  lemma DigitValueOfDigitChar(d: nat)
    requires d < 16
    ensures DigitValue(DigitChar(d)) == d
  {
  }

  /** Every character of `ToBase(n, base)` is a digit of that base. */
  lemma {:induction false} ToBaseDigits(n: nat, base: nat)
    requires 2 <= base <= 16
    ensures forall i :: 0 <= i < |ToBase(n, base)| ==> IsDigitOf(ToBase(n, base)[i], base)
    decreases n
  {
    var s := ToBase(n, base);
    if n >= base {
      DivShrinks(n, base);
      ToBaseDigits(n / base, base);
      var t := ToBase(n / base, base);
      forall i | 0 <= i < |s| ensures IsDigitOf(s[i], base) {
        if i == |s| - 1 {
          assert s[i] == Digits[n % base] == Digits[..base][n % base];
        } else {
          assert s[i] == t[i];
        }
      }
    } else {
      assert s[0] == Digits[..base][n];
    }
  }

  /** `ToBase(n, base)` reads back as `n`. */
  lemma {:induction false} ToBaseRoundTrip(n: nat, base: nat)
    requires 2 <= base <= 16
    ensures FromBase(ToBase(n, base), base) == n
    decreases n
  {
    if n < base {
      DigitValueOfDigitChar(n);
      FromBaseSnoc([], DigitChar(n), base);
      assert ToBase(n, base) == [] + [DigitChar(n)];
    } else {
      DivShrinks(n, base);
      ToBaseRoundTrip(n / base, base);
      ToBaseStep(n, base);
    }
  }

  lemma ToBaseStep(n: nat, base: nat)
    requires 2 <= base <= n && base <= 16
    requires FromBase(ToBase(n / base, base), base) == n / base
    ensures FromBase(ToBase(n, base), base) == n
  {
    var q, r := n / base, n % base;
    DigitValueOfDigitChar(r);
    FromBaseSnoc(ToBase(q, base), DigitChar(r), base);
    assert ToBase(n, base) == ToBase(q, base) + [DigitChar(r)];
    DivMod(n, base);
  }

  lemma DivShrinks(n: nat, base: nat)
    requires 2 <= base <= n
    ensures n / base < n
  {
    DivMod(n, base);
    MulLe(2, base, n / base);
  }

  lemma MulLe(a: nat, b: nat, k: nat)
    requires a <= b
    ensures a * k <= b * k
  {
  }

  lemma DivBelow(n: nat, base: nat, m: nat)
    requires base > 0 && n < base * m
    ensures n / base < m
  {
    DivMod(n, base);
  }

  lemma DivMod(n: nat, base: nat)
    requires base > 0
    ensures n == (n / base) * base + n % base && n % base < base && 0 <= n / base
  {
  }

  lemma FromBaseSnoc(t: string, ch: char, base: nat)
    ensures FromBase(t + [ch], base) == FromBase(t, base) * base + DigitValue(ch)
  {
    assert (t + [ch])[..|t|] == t;
  }

  /** Distinct numbers have distinct digit strings. */
  lemma ToBaseInjective(a: nat, b: nat, base: nat)
    requires 2 <= base <= 16
    requires ToBase(a, base) == ToBase(b, base)
    ensures a == b
  {
    ToBaseRoundTrip(a, base);
    ToBaseRoundTrip(b, base);
  }

  /** A number below `base^k` has at most `k` digits. */
  lemma {:induction false} ToBaseLength(n: nat, base: nat, k: nat)
    requires 2 <= base <= 16
    requires k >= 1 && n < Pow(base, k)
    ensures |ToBase(n, base)| <= k
    decreases k
  {
    if n >= base {
      assert Pow(base, 1) == base;
      assert k >= 2;
      assert Pow(base, k) == base * Pow(base, k - 1);
      DivBelow(n, base, Pow(base, k - 1));
      ToBaseLength(n / base, base, k - 1);
    }
  }

  function Pow(b: nat, k: nat): nat {
    if k == 0 then 1 else b * Pow(b, k - 1)
  }

  /** Leading zeros do not change the value read back. */
  lemma {:induction false} FromBaseLeadingZeros(z: nat, s: string, base: nat)
    ensures FromBase(seq(z, _ => '0') + s, base) == FromBase(s, base)
    decreases |s|
  {
    var zs := seq(z, _ => '0');
    if s == [] {
      assert zs + s == zs;
      AllZeros(z, base);
    } else {
      assert (zs + s)[..|zs + s| - 1] == zs + s[..|s| - 1];
      FromBaseLeadingZeros(z, s[..|s| - 1], base);
    }
  }

  lemma {:induction false} AllZeros(z: nat, base: nat)
    ensures FromBase(seq(z, _ => '0'), base) == 0
    decreases z
  {
    if z > 0 {
      assert seq(z, _ => '0')[..z - 1] == seq(z - 1, _ => '0');
      AllZeros(z - 1, base);
    }
  }

  /** A character that is no digit does not occur in a number's digit string. */
  lemma ToBaseAvoids(n: nat, base: nat, ch: char)
    requires 2 <= base <= 16
    requires ch !in Digits
    ensures NoChar(ToBase(n, base), ch)
  {
    ToBaseDigits(n, base);
  }

  /** A joined string contains a character only if a part or the separator does. */
  lemma {:induction false} JoinAvoids(parts: seq<string>, sep: string, ch: char)
    requires NoChar(sep, ch)
    requires forall k :: 0 <= k < |parts| ==> NoChar(parts[k], ch)
    ensures NoChar(Join(parts, sep), ch)
    decreases |parts|
  {
    if |parts| > 1 {
      JoinAvoids(parts[1..], sep, ch);
      var rest := Join(parts[1..], sep);
      assert Join(parts, sep) == parts[0] + sep + rest;
      forall i | 0 <= i < |Join(parts, sep)| ensures Join(parts, sep)[i] != ch {
        if i < |parts[0]| {
        } else if i < |parts[0]| + |sep| {
          assert Join(parts, sep)[i] == sep[i - |parts[0]|];
        } else {
          assert Join(parts, sep)[i] == rest[i - |parts[0]| - |sep|];
        }
      }
    }
  }

  /** Joining one more part appends the separator and that part. */
  lemma {:induction false} JoinSnoc(parts: seq<string>, sep: string, last: string)
    requires parts != []
    ensures Join(parts + [last], sep) == Join(parts, sep) + sep + last
    decreases |parts|
  {
    var all := parts + [last];
    if |parts| == 1 {
      assert all == [parts[0], last];
      assert all[1..] == [last];
    } else {
      assert all[1..] == parts[1..] + [last];
      JoinSnoc(parts[1..], sep, last);
      assert Join(all, sep) == parts[0] + sep + (Join(parts[1..], sep) + sep + last);
    }
  }
}
