/** String helpers the bot relies on: JavaScript's `trim`, ASCII `toLowerCase`,
    `split` on one character, `join`, decimal rendering of menu indices, and the
    code-point order SQLite's BINARY collation sorts names by. */
module Text {

  /** The characters JavaScript's `String.prototype.trim` removes: the
      WhiteSpace and LineTerminator code points of ECMAScript. */
  predicate IsTrimmable(c: char) {
    || c == '\t' || c == '\n' || c == '\U{B}' || c == '\U{C}' || c == '\r'
    || c == ' ' || c == '\U{A0}' || c == '\U{1680}'
    || ('\U{2000}' <= c <= '\U{200A}')
    || c == '\U{2028}' || c == '\U{2029}' || c == '\U{202F}' || c == '\U{205F}'
    || c == '\U{3000}' || c == '\U{FEFF}'
  }

  /** Drops leading trimmable characters. */
  function TrimStart(s: string): (r: string)
    ensures |r| <= |s| && r == s[|s| - |r|..]
    ensures r == [] || !IsTrimmable(r[0])
    ensures forall i :: 0 <= i < |s| - |r| ==> IsTrimmable(s[i])
    decreases |s|
  {
    if |s| > 0 && IsTrimmable(s[0]) then TrimStart(s[1..]) else s
  }

  /** Drops trailing trimmable characters. */
  function TrimEnd(s: string): (r: string)
    ensures |r| <= |s| && r == s[..|r|]
    ensures r == [] || !IsTrimmable(r[|r| - 1])
    ensures forall i :: |r| <= i < |s| ==> IsTrimmable(s[i])
    decreases |s|
  {
    if |s| > 0 && IsTrimmable(s[|s| - 1]) then TrimEnd(s[..|s| - 1]) else s
  }

  /** JavaScript's `s.trim()`. */
  function Trim(s: string): string {
    TrimEnd(TrimStart(s))
  }

  /** The trimmed text is a contiguous piece of the input with nothing
      trimmable at either end, and everything cut off around it is trimmable. */
  lemma TrimIsMaximalSlice(s: string)
    ensures exists a, b :: (0 <= a <= b <= |s| && Trim(s) == s[a..b]
      && (forall i :: 0 <= i < a ==> IsTrimmable(s[i]))
      && (forall i :: b <= i < |s| ==> IsTrimmable(s[i])))
    ensures Trim(s) == [] || (!IsTrimmable(Trim(s)[0]) && !IsTrimmable(Trim(s)[|Trim(s)| - 1]))
  {
    var t := TrimStart(s);
    var e := TrimEnd(t);
    assert Trim(s) == e;
    var a := |s| - |t|;
    var b := a + |e|;
    TrimSliceBounds(s, t, e, a, b);
    assert 0 <= a <= b <= |s| && Trim(s) == s[a..b]
      && (forall i :: 0 <= i < a ==> IsTrimmable(s[i]))
      && (forall i :: b <= i < |s| ==> IsTrimmable(s[i]));
    if e != [] {
      assert e[0] == t[0];
    }
  }

  lemma TrimSliceBounds(s: string, t: string, e: string, a: nat, b: nat)
    requires t == TrimStart(s) && e == TrimEnd(t) && a == |s| - |t| && b == a + |e|
    ensures 0 <= a <= b <= |s| && e == s[a..b]
    ensures forall i :: 0 <= i < a ==> IsTrimmable(s[i])
    ensures forall i :: b <= i < |s| ==> IsTrimmable(s[i])
  {
    assert t == s[a..] && e == t[..|e|];
    forall i | b <= i < |s| ensures IsTrimmable(s[i]) {
      assert s[i] == t[i - a];
    }
  }

  /** A text trims to the empty string exactly when every character is trimmable:
      this is the "required field left blank" condition of the forms. */
  lemma TrimEmptyIff(s: string)
    ensures Trim(s) == [] <==> forall i :: 0 <= i < |s| ==> IsTrimmable(s[i])
  {
    var t := TrimStart(s);
    if Trim(s) == [] {
      assert t == [];
    } else if forall i :: 0 <= i < |s| ==> IsTrimmable(s[i]) {
      TrimStartAllTrimmable(s);
    }
  }

  lemma {:induction false} TrimStartAllTrimmable(s: string)
    requires forall i :: 0 <= i < |s| ==> IsTrimmable(s[i])
    ensures TrimStart(s) == []
    decreases |s|
  {
    if |s| > 0 { TrimStartAllTrimmable(s[1..]); }
  }

  /** Trimming twice changes nothing. */
  lemma TrimIdempotent(s: string)
    ensures Trim(Trim(s)) == Trim(s)
  {
    var r := Trim(s);
    TrimIsMaximalSlice(s);
    assert TrimStart(r) == r;
    assert TrimEnd(r) == r;
  }

  /** ASCII `toLowerCase` on one character. */
  function LowerChar(c: char): char {
    if 'A' <= c <= 'Z' then (c as int + 32) as char else c
  }

  /** `toLowerCase` restricted to the ASCII letters. */
  function Lower(s: string): (r: string)
    ensures |r| == |s|
    ensures forall i :: 0 <= i < |s| ==> r[i] == LowerChar(s[i])
  {
    seq(|s|, i requires 0 <= i < |s| => LowerChar(s[i]))
  }

  /** Case-insensitive equality as the bot compares map names. */
  predicate SameIgnoringCase(a: string, b: string) {
    Lower(a) == Lower(b)
  }

  /** A character outside the Basic Multilingual Plane, which UTF-16 stores
      as a surrogate pair. */
  predicate IsAstral(c: char) {
    c as int >= 0x1_0000
  }

  /** JavaScript's `.length`: the number of UTF-16 code units, so an astral
      character counts twice. */
  function Utf16Length(s: string): (n: nat)
    ensures |s| <= n <= 2 * |s|
    ensures (forall i :: 0 <= i < |s| ==> !IsAstral(s[i])) ==> n == |s|
    ensures (forall i :: 0 <= i < |s| ==> IsAstral(s[i])) ==> n == 2 * |s|
    decreases |s|
  {
    if |s| == 0 then 0
    else
      var init := s[..|s| - 1];
      assert forall i :: 0 <= i < |init| ==> init[i] == s[i];
      Utf16Length(init) + (if IsAstral(s[|s| - 1]) then 2 else 1)
  }

  /** `.length` and the number of characters differ exactly by the astral ones:
      U+1F525 is one character but two units. */
  lemma Utf16LengthOfAstral()
    ensures |"\U{1F525}"| == 1 && Utf16Length("\U{1F525}") == 2
  {
  }

  /** `parts.join(sep)`: the empty list joins to the empty string. */
  function Join(parts: seq<string>, sep: string): string {
    if |parts| == 0 then ""
    else if |parts| == 1 then parts[0]
    else parts[0] + sep + Join(parts[1..], sep)
  }

  /** `s.split(c)` for a one-character separator: always at least one part,
      empty parts kept. */
  function Split(s: string, c: char): (parts: seq<string>)
    ensures |parts| >= 1
    ensures forall k :: 0 <= k < |parts| ==> c !in parts[k]
    decreases |s|
  {
    if |s| == 0 then [""]
    else
      var rest := Split(s[1..], c);
      if s[0] == c then [""] + rest
      else [[s[0]] + rest[0]] + rest[1..]
  }

  /** Joining the parts of a split with the separator gives back the text. */
  lemma {:induction false} JoinSplit(s: string, c: char)
    ensures Join(Split(s, c), [c]) == s
    decreases |s|
  {
    if |s| > 0 {
      var rest := Split(s[1..], c);
      JoinSplit(s[1..], c);
      if s[0] == c {
        assert Split(s, c) == [""] + rest;
        assert Join([""] + rest, [c]) == "" + [c] + Join(rest, [c]) by {
          assert ([""] + rest)[1..] == rest;
        }
      } else {
        var parts := Split(s, c);
        assert parts == [[s[0]] + rest[0]] + rest[1..];
        if |rest| == 1 {
          assert Join(parts, [c]) == [s[0]] + rest[0];
        } else {
          assert parts[1..] == rest[1..];
          assert Join(rest, [c]) == rest[0] + [c] + Join(rest[1..], [c]);
          assert Join(parts, [c]) == [s[0]] + rest[0] + [c] + Join(rest[1..], [c]);
        }
      }
    }
  }

  /** Splitting a join of separator-free parts gives back the parts. */
  lemma {:induction false} SplitJoin(parts: seq<string>, c: char)
    requires |parts| >= 1
    requires forall k :: 0 <= k < |parts| ==> c !in parts[k]
    ensures Split(Join(parts, [c]), c) == parts
    decreases |parts|, |parts[0]|
  {
    var p := parts[0];
    if |p| == 0 {
      if |parts| == 1 {
      } else {
        var tail := parts[1..];
        SplitJoin(tail, c);
        var j := Join(parts, [c]);
        assert j == [c] + Join(tail, [c]);
        assert j[1..] == Join(tail, [c]);
      }
    } else {
      var parts' := [p[1..]] + parts[1..];
      forall k | 0 <= k < |p| - 1 ensures p[1..][k] != c {
        assert p[1..][k] == p[k + 1];
      }
      SplitJoin(parts', c);
      var j := Join(parts, [c]);
      var j' := Join(parts', [c]);
      if |parts| == 1 {
        assert j == p && j' == p[1..];
      } else {
        assert parts'[1..] == parts[1..];
        assert j == p + [c] + Join(parts[1..], [c]);
        assert j' == p[1..] + [c] + Join(parts[1..], [c]);
      }
      assert j[0] == p[0] && j[1..] == j';
      assert [p[0]] + p[1..] == p;
    }
  }

  /** The digit character for 0..9. */
  function DigitChar(d: nat): char
    requires d < 10
  {
    "0123456789"[d]
  }

  /** Decimal rendering of a number, as JavaScript's template strings print it. */
  function Decimal(n: nat): (r: string)
    ensures |r| >= 1
    ensures forall i :: 0 <= i < |r| ==> '0' <= r[i] <= '9'
    decreases n
  {
    if n < 10 then [DigitChar(n)] else Decimal(n / 10) + [DigitChar(n % 10)]
  }

  /** The value a string of decimal digits stands for. */
  function DigitsValue(s: string): nat
    requires forall i :: 0 <= i < |s| ==> '0' <= s[i] <= '9'
    decreases |s|
  {
    if |s| == 0 then 0 else 10 * DigitsValue(s[..|s| - 1]) + (s[|s| - 1] as int - '0' as int)
  }

  lemma DigitCharValue(d: nat)
    requires d < 10
    ensures DigitChar(d) as int - '0' as int == d
  {
  }

  /** Rendering a number in decimal loses nothing: reading the digits back gives it. */
  lemma {:induction false} DecimalValue(n: nat)
    ensures DigitsValue(Decimal(n)) == n
    decreases n
  {
    if n >= 10 {
      DecimalValue(n / 10);
      var r := Decimal(n);
      assert r[..|r| - 1] == Decimal(n / 10);
      DigitCharValue(n % 10);
    } else {
      DigitCharValue(n);
    }
  }

  /** The byte-wise order of SQLite's BINARY collation: UTF-8 preserves code point
      order, so it is lexicographic order on code points, a proper prefix first. */
  predicate Below(a: string, b: string)
    decreases |a|
  {
    if |a| == 0 then |b| > 0
    else if |b| == 0 then false
    else a[0] < b[0] || (a[0] == b[0] && Below(a[1..], b[1..]))
  }

  lemma {:induction false} BelowIrreflexive(a: string)
    ensures !Below(a, a)
    decreases |a|
  {
    if |a| > 0 { BelowIrreflexive(a[1..]); }
  }

  lemma {:induction false} BelowTransitive(a: string, b: string, c: string)
    requires Below(a, b) && Below(b, c)
    ensures Below(a, c)
    decreases |a|
  {
    if |a| > 0 && |b| > 0 && |c| > 0 && a[0] == b[0] == c[0] {
      BelowTransitive(a[1..], b[1..], c[1..]);
    }
  }

  lemma {:induction false} BelowTotal(a: string, b: string)
    requires a != b
    ensures Below(a, b) || Below(b, a)
    decreases |a|
  {
    if |a| > 0 && |b| > 0 && a[0] == b[0] {
      assert a == [a[0]] + a[1..] && b == [b[0]] + b[1..];
      BelowTotal(a[1..], b[1..]);
    }
  }
}
