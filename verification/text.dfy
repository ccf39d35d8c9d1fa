/** Character-level normalisation of a bio: punctuation removal and
    lowercasing. */
module Text {

  /** The characters of the regular-expression class `[A-Za-z]`. */
  predicate IsAsciiLetter(c: char)
  {
    'A' <= c <= 'Z' || 'a' <= c <= 'z'
  }

  predicate IsAsciiUpper(c: char)
  {
    'A' <= c <= 'Z'
  }

  /** The characters of the ECMAScript regular-expression class `\s`: the
      WhiteSpace code points (tab, vertical tab, form feed, space, no-break
      space, the Zs separators, byte-order mark) and the LineTerminator code
      points (line feed, carriage return, line and paragraph separators). */
  predicate IsWhitespace(c: char)
  {
    var n := c as int;
    (0x09 <= n <= 0x0D) || n == 0x20 || n == 0xA0 || n == 0x1680
    || (0x2000 <= n <= 0x200A) || n == 0x2028 || n == 0x2029
    || n == 0x202F || n == 0x205F || n == 0x3000 || n == 0xFEFF
  }

  /** The characters punctuation removal keeps: `[A-Za-z\s]`. */
  predicate IsKept(c: char)
  {
    IsAsciiLetter(c) || IsWhitespace(c)
  }

  /** Deletes every character that is neither an ASCII letter nor
      whitespace, keeping the rest in order. */
  function RemovePunctuation(s: string): (r: string)
    ensures |r| <= |s|
    ensures forall i :: 0 <= i < |r| ==> IsKept(r[i])
    ensures (forall i :: 0 <= i < |s| ==> IsKept(s[i])) ==> r == s
    ensures (forall i :: 0 <= i < |s| ==> !IsKept(s[i])) ==> r == []
    decreases |s|
  {
    if |s| == 0 then []
    else (if IsKept(s[0]) then [s[0]] else []) + RemovePunctuation(s[1..])
  }

  /** Removal distributes over concatenation: every character is kept or
      dropped on its own, and the survivors keep their relative order. */
  lemma {:induction false} RemovePunctuationConcat(a: string, b: string)
    ensures RemovePunctuation(a + b) == RemovePunctuation(a) + RemovePunctuation(b)
    decreases |a|
  {
    if |a| == 0 {
      assert a + b == b;
    } else {
      assert (a + b)[1..] == a[1..] + b;
      RemovePunctuationConcat(a[1..], b);
    }
  }

  /** Removal neither inserts nor replaces: each kept character occurs
      exactly as often as in the input, every other character not at all. */
  lemma {:induction false} RemovePunctuationCount(s: string, c: char)
    ensures multiset(RemovePunctuation(s))[c] == if IsKept(c) then multiset(s)[c] else 0
    decreases |s|
  {
    if |s| > 0 {
      RemovePunctuationCount(s[1..], c);
      assert s == [s[0]] + s[1..];
      assert multiset(s) == multiset([s[0]]) + multiset(s[1..]);
    }
  }

  /** Removing punctuation twice is the same as removing it once. */
  lemma RemovePunctuationIdempotent(s: string)
    ensures RemovePunctuation(RemovePunctuation(s)) == RemovePunctuation(s)
  {
  }

  /** The number of UTF-16 code units a character takes: two for a code
      point outside the Basic Multilingual Plane (a surrogate pair), one
      otherwise. */
  function Utf16Units(c: char): nat
  {
    if c as int >= 0x10000 then 2 else 1
  }

  /** JavaScript's `String.prototype.length`: the number of UTF-16 code
      units, which exceeds the number of code points by one for every
      character outside the Basic Multilingual Plane. */
  function Utf16Length(s: string): (n: nat)
    ensures |s| <= n <= 2 * |s|
    decreases |s|
  {
    if |s| == 0 then 0 else Utf16Units(s[0]) + Utf16Length(s[1..])
  }

  /** In the Basic Multilingual Plane every character is one code unit, so
      `length` is the number of characters. */
  lemma {:induction false} Utf16LengthBmp(s: string)
    requires forall i :: 0 <= i < |s| ==> s[i] as int < 0x10000
    ensures Utf16Length(s) == |s|
    decreases |s|
  {
    if |s| > 0 {
      assert forall i :: 0 <= i < |s[1..]| ==> s[1..][i] == s[i + 1];
      Utf16LengthBmp(s[1..]);
    }
  }

  /** The code-unit length of a concatenation is the sum of the lengths. */
  lemma {:induction false} Utf16LengthConcat(a: string, b: string)
    ensures Utf16Length(a + b) == Utf16Length(a) + Utf16Length(b)
    decreases |a|
  {
    if |a| == 0 {
      assert a + b == b;
    } else {
      assert (a + b)[1..] == a[1..] + b;
      assert (a + b)[0] == a[0];
      Utf16LengthConcat(a[1..], b);
    }
  }

  /** A slice is never longer, in code units, than the string it is cut from. */
  lemma {:induction false} Utf16LengthSlice(s: string, lo: nat, hi: nat)
    requires lo <= hi <= |s|
    ensures Utf16Length(s[lo..hi]) <= Utf16Length(s)
  {
    var front, mid, back := s[..lo], s[lo..hi], s[hi..];
    assert s == (front + mid) + back;
    Utf16LengthConcat(front + mid, back);
    Utf16LengthConcat(front, mid);
  }

  /** A title ending in two emoji is two code units longer than it is long
      in code points. */
  lemma Utf16LengthAstralExample()
    ensures |"Chef \U{1F363}\U{1F363}"| == 7
    ensures Utf16Length("Chef \U{1F363}\U{1F363}") == 9
  {
    var s := "Chef \U{1F363}\U{1F363}";
    assert s == "Chef " + "\U{1F363}\U{1F363}";
    Utf16LengthConcat("Chef ", "\U{1F363}\U{1F363}");
    assert "\U{1F363}\U{1F363}"[1..] == "\U{1F363}";
    assert "\U{1F363}"[1..] == "";
  }

  /** Maps `A`..`Z` to `a`..`z` and leaves every other character alone. */
  function LowerChar(c: char): (d: char)
    ensures !IsAsciiUpper(d)
    ensures IsAsciiUpper(c) ==> d as int == c as int + 32
    ensures !IsAsciiUpper(c) ==> d == c
  {
    if IsAsciiUpper(c) then (c as int + 32) as char else c
  }

  /** Lowercases a string character by character. Only the ASCII letters
      have a case mapping here. */
  function ToLowerCase(s: string): (r: string)
    ensures |r| == |s|
    ensures forall i :: 0 <= i < |r| ==> !IsAsciiUpper(r[i])
    ensures forall i :: 0 <= i < |s| && !IsAsciiUpper(s[i]) ==> r[i] == s[i]
    ensures forall i :: 0 <= i < |s| && IsAsciiUpper(s[i]) ==> r[i] as int == s[i] as int + 32
  {
    seq(|s|, i requires 0 <= i < |s| => LowerChar(s[i]))
  }

  /** A lowercased string is its own lowercase form. */
  lemma ToLowerCaseIdempotent(s: string)
    ensures ToLowerCase(ToLowerCase(s)) == ToLowerCase(s)
  {
  }

  lemma ToLowerCaseConcat(a: string, b: string)
    ensures ToLowerCase(a + b) == ToLowerCase(a) + ToLowerCase(b)
  {
  }

  /** Lowercasing keeps each character's class, so it commutes with
      punctuation removal: the bio pipeline may apply them in either order. */
  lemma {:induction false} LowerCommutesWithRemovePunctuation(s: string)
    ensures ToLowerCase(RemovePunctuation(s)) == RemovePunctuation(ToLowerCase(s))
    decreases |s|
  {
    if |s| > 0 {
      var head := if IsKept(s[0]) then [s[0]] else [];
      var rest := RemovePunctuation(s[1..]);
      assert RemovePunctuation(s) == head + rest;
      ToLowerCaseConcat(head, rest);
      LowerCommutesWithRemovePunctuation(s[1..]);
      assert s == [s[0]] + s[1..];
      ToLowerCaseConcat([s[0]], s[1..]);
      RemovePunctuationConcat(ToLowerCase([s[0]]), ToLowerCase(s[1..]));
      assert IsKept(s[0]) <==> IsKept(LowerChar(s[0]));
      assert ToLowerCase(head) == RemovePunctuation(ToLowerCase([s[0]]));
    }
  }
}
