/** The parts of Rust's `char` and `String` that the macro builder relies on:
    `char::is_whitespace`, UTF-8 byte lengths and `String::truncate`. A Dafny
    `string` is a sequence of Unicode scalar values; the Rust string holding
    it is its UTF-8 encoding. */
module Text {
  import opened Outcomes

  /** Rust's `char::is_whitespace`: the Unicode White_Space property. */
  predicate IsWhitespace(c: char) {
    var n := c as int;
    || (0x09 <= n <= 0x0D) || n == 0x20 || n == 0x85 || n == 0xA0 || n == 0x1680
    || (0x2000 <= n <= 0x200A) || n == 0x2028 || n == 0x2029 || n == 0x202F
    || n == 0x205F || n == 0x3000
  }

  predicate NoWhitespace(s: string) {
    forall i | 0 <= i < |s| :: !IsWhitespace(s[i])
  }

  /** `s.chars().filter(|c| !c.is_whitespace()).collect()`. */
  function RemoveWhitespace(s: string): (r: string)
    ensures NoWhitespace(r)
    ensures |r| <= |s|
    ensures forall c | c in r :: c in s
  {
    if s == [] then []
    else if IsWhitespace(s[0]) then RemoveWhitespace(s[1..])
    else [s[0]] + RemoveWhitespace(s[1..])
  }

  /** Exactly the whitespace is removed: every other character is kept, as
      often as it occurs in `s`. */
  lemma {:induction false} RemoveWhitespaceKeeps(s: string, c: char)
    ensures multiset(RemoveWhitespace(s))[c] == if IsWhitespace(c) then 0 else multiset(s)[c]
    ensures !IsWhitespace(c) && c in s ==> c in RemoveWhitespace(s)
  {
    if s != [] {
      RemoveWhitespaceKeeps(s[1..], c);
      assert s == [s[0]] + s[1..];
    }
  }

  /** Removing whitespace works piece by piece. */
  lemma {:induction false} RemoveWhitespaceConcat(a: string, b: string)
    ensures RemoveWhitespace(a + b) == RemoveWhitespace(a) + RemoveWhitespace(b)
  {
    if a == [] {
      assert a + b == b;
    } else {
      assert (a + b)[1..] == a[1..] + b;
      RemoveWhitespaceConcat(a[1..], b);
    }
  }

  /** A string without whitespace is left as it is; in particular removing
      whitespace twice is removing it once. */
  lemma {:induction false} RemoveWhitespaceKeepsClean(s: string)
    requires NoWhitespace(s)
    ensures RemoveWhitespace(s) == s
  {
    if s != [] {
      assert NoWhitespace(s[1..]) by {
        forall i | 0 <= i < |s[1..]| ensures !IsWhitespace(s[1..][i]) {
          assert s[1..][i] == s[i + 1];
        }
      }
      RemoveWhitespaceKeepsClean(s[1..]);
      assert s == [s[0]] + s[1..];
    }
  }

  lemma RemoveWhitespaceIdempotent(s: string)
    ensures RemoveWhitespace(RemoveWhitespace(s)) == RemoveWhitespace(s)
  {
    RemoveWhitespaceKeepsClean(RemoveWhitespace(s));
  }

  predicate IsAscii(s: string) {
    forall i | 0 <= i < |s| :: s[i] as int < 0x80
  }

  /** Number of bytes of the UTF-8 encoding of `c`. */
  function Utf8Width(c: char): (w: nat)
    ensures 1 <= w <= 4
    ensures w == 1 <==> c as int < 0x80
  {
    if c as int < 0x80 then 1
    else if c as int < 0x800 then 2
    else if c as int < 0x1_0000 then 3
    else 4
  }

  /** `String::len`: the number of bytes of the UTF-8 encoding of `s`. */
  function ByteLen(s: string): (n: nat)
    ensures n >= |s|
  {
    if s == [] then 0 else Utf8Width(s[0]) + ByteLen(s[1..])
  }

  lemma {:induction false} ByteLenConcat(a: string, b: string)
    ensures ByteLen(a + b) == ByteLen(a) + ByteLen(b)
  {
    if a == [] {
      assert a + b == b;
    } else {
      assert (a + b)[1..] == a[1..] + b;
      ByteLenConcat(a[1..], b);
    }
  }

  /** Byte length and character count agree exactly on ASCII strings. */
  lemma {:induction false} ByteLenAscii(s: string)
    ensures ByteLen(s) == |s| <==> IsAscii(s)
  {
    if s != [] {
      ByteLenAscii(s[1..]);
      if IsAscii(s) {
        assert IsAscii(s[1..]) by {
          forall i | 0 <= i < |s[1..]| ensures s[1..][i] as int < 0x80 {
            assert s[1..][i] == s[i + 1];
          }
        }
      } else if IsAscii(s[1..]) {
        assert !(s[0] as int < 0x80) by {
          forall i | 1 <= i < |s| ensures s[i] as int < 0x80 {
            assert s[i] == s[1..][i - 1];
          }
        }
      }
    }
  }

  /** The first `n` bytes of `s` as characters, when `n` falls on a character
      boundary. */
  function CutAtByte(s: string, n: nat): (r: Result<string>)
    ensures r.Err? ==> r.error == NotCharBoundary
  {
    if n == 0 then Ok([])
    else if s == [] || n < Utf8Width(s[0]) then Err(NotCharBoundary)
    else
      match CutAtByte(s[1..], n - Utf8Width(s[0]))
      case Err(e) => Err(e)
      case Ok(rest) => Ok([s[0]] + rest)
  }

  /** A successful cut is a prefix of exactly `n` bytes. */
  lemma {:induction false} CutIsPrefix(s: string, n: nat)
    ensures CutAtByte(s, n).Ok? ==> CutAtByte(s, n).value <= s && ByteLen(CutAtByte(s, n).value) == n
  {
    if n > 0 && s != [] && n >= Utf8Width(s[0]) {
      CutIsPrefix(s[1..], n - Utf8Width(s[0]));
    }
  }

  /** Every prefix ends on a character boundary and is found by `CutAtByte`. */
  lemma {:induction false} CutAtPrefix(s: string, k: nat)
    requires k <= |s|
    ensures CutAtByte(s, ByteLen(s[..k])) == Ok(s[..k])
  {
    if k > 0 {
      assert s[..k][1..] == s[1..][..k - 1];
      CutAtPrefix(s[1..], k - 1);
      assert s[..k] == [s[0]] + s[1..][..k - 1];
    }
  }

  /** Cutting past a whole prefix `a` is cutting the rest. */
  lemma {:induction false} CutAfterPrefix(a: string, b: string, m: nat)
    ensures CutAtByte(a + b, ByteLen(a) + m) ==
      match CutAtByte(b, m)
      case Ok(x) => Ok(a + x)
      case Err(e) => Err(e)
  {
    if a == [] {
      assert a + b == b;
      if CutAtByte(b, m).Ok? {
        assert a + CutAtByte(b, m).value == CutAtByte(b, m).value;
      }
    } else {
      var s, w := a + b, Utf8Width(a[0]);
      assert s[0] == a[0] && s[1..] == a[1..] + b;
      var n := ByteLen(a) + m;
      assert n == w + (ByteLen(a[1..]) + m);
      assert CutAtByte(s, n) ==
        match CutAtByte(s[1..], ByteLen(a[1..]) + m)
        case Err(e) => Err(e)
        case Ok(rest) => Ok([s[0]] + rest);
      CutAfterPrefix(a[1..], b, m);
      if CutAtByte(b, m).Ok? {
        assert [a[0]] + (a[1..] + CutAtByte(b, m).value) == a + CutAtByte(b, m).value;
      }
    }
  }

  /** Rust's `String::truncate(new_len)`: no effect at or past the end,
      otherwise keep the first `new_len` bytes, panicking when `new_len` is
      not on a character boundary. */
  function TruncateBytes(s: string, newLen: nat): (r: Result<string>)
    ensures r.Err? ==> r.error == NotCharBoundary && newLen < ByteLen(s)
    ensures r.Ok? ==> r.value <= s
    ensures r.Ok? ==> ByteLen(r.value) == if newLen < ByteLen(s) then newLen else ByteLen(s)
  {
    CutIsPrefix(s, newLen);
    if newLen >= ByteLen(s) then Ok(s) else CutAtByte(s, newLen)
  }

  /** Dropping the last `k` characters of `s` is truncating it to the byte
      length of what remains. */
  lemma TruncateDropsSuffix(s: string, k: nat)
    requires k <= |s|
    ensures TruncateBytes(s, ByteLen(s[..|s| - k])) == Ok(s[..|s| - k])
  {
    var kept := s[..|s| - k];
    CutAtPrefix(s, |s| - k);
    if k == 0 {
      assert kept == s;
    } else {
      assert s == kept + s[|s| - k..];
      ByteLenConcat(kept, s[|s| - k..]);
    }
  }
}
