/** Strings as JavaScript sees them: `String.prototype.trim`, the whitespace
    set it strips (WhiteSpace and LineTerminator code points of ECMAScript),
    and `length`, which counts UTF-16 code units. */
module Text {

  /** True for the code points `trim` removes: tab, line tabulation, form feed,
      space, no-break space, byte order mark, the Unicode space separators and
      the four line terminators. */
  predicate IsWhitespace(c: char) {
    var n := c as int;
    n == 0x09 || n == 0x0A || n == 0x0B || n == 0x0C || n == 0x0D || n == 0x20
    || n == 0xA0 || n == 0x1680 || (0x2000 <= n <= 0x200A)
    || n == 0x2028 || n == 0x2029 || n == 0x202F || n == 0x205F
    || n == 0x3000 || n == 0xFEFF
  }

  /** Neither end of `s` is whitespace. */
  predicate Trimmed(s: string) {
    |s| == 0 || (!IsWhitespace(s[0]) && !IsWhitespace(s[|s| - 1]))
  }

  predicate AllWhitespace(s: string) {
    forall i :: 0 <= i < |s| ==> IsWhitespace(s[i])
  }

  /** `s` without its leading whitespace. */
  function TrimStart(s: string): (r: string)
    ensures |r| <= |s|
  {
    if |s| > 0 && IsWhitespace(s[0]) then TrimStart(s[1..]) else s
  }

  /** `s` without its trailing whitespace. */
  function TrimEnd(s: string): (r: string)
    ensures |r| <= |s|
  {
    if |s| > 0 && IsWhitespace(s[|s| - 1]) then TrimEnd(s[..|s| - 1]) else s
  }

  /** `String.prototype.trim`. */
  function Trim(s: string): (r: string)
    ensures |r| <= |s|
    ensures Trimmed(r)
  {
    var t := TrimStart(s);
    TrimStartDrops(s);
    TrimEndDrops(t);
    TrimEnd(t)
  }

  /** `TrimStart` drops an all-whitespace prefix and keeps a suffix that
      does not start with whitespace. */
  lemma {:induction false} TrimStartDrops(s: string)
    ensures var r := TrimStart(s);
      && r == s[|s| - |r|..]
      && AllWhitespace(s[..|s| - |r|])
      && (|r| == 0 || !IsWhitespace(r[0]))
  {
    if |s| > 0 && IsWhitespace(s[0]) {
      var tail := s[1..];
      TrimStartDrops(tail);
      var r := TrimStart(tail);
      var k := |s| - |r|;
      assert tail[|tail| - |r|..] == s[k..];
      forall i | 0 <= i < k
        ensures IsWhitespace(s[..k][i])
      {
        if i == 0 {
          assert s[..k][i] == s[0];
        } else {
          assert s[..k][i] == tail[..|tail| - |r|][i - 1];
          assert IsWhitespace(tail[..|tail| - |r|][i - 1]);
        }
      }
    } else {
      assert s[..0] == [];
    }
  }

  /** `TrimEnd` drops an all-whitespace suffix and keeps a prefix that
      does not end with whitespace. */
  lemma {:induction false} TrimEndDrops(s: string)
    ensures var r := TrimEnd(s);
      && r == s[..|r|]
      && AllWhitespace(s[|r|..])
      && (|r| == 0 || !IsWhitespace(r[|r| - 1]))
  {
    if |s| > 0 && IsWhitespace(s[|s| - 1]) {
      var init := s[..|s| - 1];
      TrimEndDrops(init);
      var r := TrimEnd(init);
      assert init[..|r|] == s[..|r|];
      forall i | |r| <= i < |s|
        ensures IsWhitespace(s[i])
      {
        if i < |s| - 1 {
          assert s[i] == init[|r|..][i - |r|];
        }
      }
      assert forall i :: 0 <= i < |s[|r|..]| ==> s[|r|..][i] == s[i + |r|];
    } else {
      assert s[|s|..] == [];
    }
  }

  /** Trim removes exactly an all-whitespace prefix and suffix of `s`: what
      is left is the slice of `s` between them. */
  lemma TrimIsSlice(s: string)
    ensures var k := |s| - |TrimStart(s)|;
      && k + |Trim(s)| <= |s|
      && Trim(s) == s[k..k + |Trim(s)|]
      && AllWhitespace(s[..k])
      && AllWhitespace(s[k + |Trim(s)|..])
  {
    var t := TrimStart(s);
    var k := |s| - |t|;
    var r := Trim(s);
    TrimStartDrops(s);
    TrimEndDrops(t);
    assert r == t[..|r|];
    assert t[|r|..] == s[k + |r|..];
  }

  /** A string is its own trim exactly when it is trimmed. */
  lemma TrimFixesTrimmed(s: string)
    ensures Trim(s) == s <==> Trimmed(s)
  {
    if Trimmed(s) {
      assert TrimStart(s) == s;
      assert TrimEnd(s) == s;
    }
  }

  /** Trimming twice is trimming once. */
  lemma TrimIdempotent(s: string)
    ensures Trim(Trim(s)) == Trim(s)
  {
    TrimFixesTrimmed(Trim(s));
  }

  /** The trim is empty exactly when the string is all whitespace. */
  lemma TrimEmptyIff(s: string)
    ensures Trim(s) == [] <==> AllWhitespace(s)
  {
    TrimIsSlice(s);
    var k := |s| - |TrimStart(s)|;
    if Trim(s) == [] {
      forall i | 0 <= i < |s|
        ensures IsWhitespace(s[i])
      {
        if i < k {
          assert s[..k][i] == s[i];
        } else {
          assert s[k..][i - k] == s[i];
        }
      }
    }
  }

  /** The UTF-16 code units a character takes: one in the Basic
      Multilingual Plane, a surrogate pair above it. */
  function CodeUnits(c: char): nat {
    if c as int <= 0xFFFF then 1 else 2
  }

  /** `s.length` in JavaScript: the number of UTF-16 code units. */
  function Utf16Length(s: string): (n: nat)
    ensures |s| <= n <= 2 * |s|
  {
    if |s| == 0 then 0 else CodeUnits(s[0]) + Utf16Length(s[1..])
  }

  lemma {:induction false} Utf16Concat(a: string, b: string)
    ensures Utf16Length(a + b) == Utf16Length(a) + Utf16Length(b)
  {
    if |a| == 0 {
      assert a + b == b;
    } else {
      assert (a + b)[0] == a[0] && (a + b)[1..] == a[1..] + b;
      Utf16Concat(a[1..], b);
    }
  }

  /** Without characters beyond the Basic Multilingual Plane, the UTF-16
      length is the number of characters. */
  lemma {:induction false} Utf16Bmp(s: string)
    requires forall i :: 0 <= i < |s| ==> s[i] as int <= 0xFFFF
    ensures Utf16Length(s) == |s|
  {
    if |s| > 0 {
      assert forall i :: 0 <= i < |s[1..]| ==> s[1..][i] == s[i + 1];
      Utf16Bmp(s[1..]);
    }
  }

  /** Characters beyond the Basic Multilingual Plane take two code units
      each. */
  lemma {:induction false} Utf16Astral(s: string)
    requires forall i :: 0 <= i < |s| ==> s[i] as int > 0xFFFF
    ensures Utf16Length(s) == 2 * |s|
  {
    if |s| > 0 {
      assert forall i :: 0 <= i < |s[1..]| ==> s[1..][i] == s[i + 1];
      Utf16Astral(s[1..]);
    }
  }

  /** Trimming never makes the UTF-16 length longer. */
  lemma TrimUtf16(s: string)
    ensures Utf16Length(Trim(s)) <= Utf16Length(s)
  {
    TrimIsSlice(s);
    var k := |s| - |TrimStart(s)|;
    var m := |Trim(s)|;
    assert s == s[..k] + (Trim(s) + s[k + m..]);
    Utf16Concat(s[..k], Trim(s) + s[k + m..]);
    Utf16Concat(Trim(s), s[k + m..]);
  }
}
