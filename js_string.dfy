/**
  The JavaScript string operations used by the user query: `toLowerCase`
  (restricted to the ASCII letters), `includes`, the relational operator `<`
  on strings (lexicographic on UTF-16 code units, a proper prefix first), and the
  truthiness of an optional string.
 */
module JsString {
  import opened Optional

  predicate IsUpper(c: char)
  {
    'A' <= c <= 'Z'
  }

  /** `toLowerCase` on one character: A-Z become a-z, every other character is kept. */
  function LowerChar(c: char): char
  {
    if IsUpper(c) then (c as int - 'A' as int + 'a' as int) as char else c
  }

  /** String.prototype.toLowerCase over ASCII letters. */
  function ToLowerCase(s: string): (r: string)
    ensures |r| == |s|
    ensures forall i :: 0 <= i < |r| ==> !IsUpper(r[i])
    ensures forall i :: 0 <= i < |s| && !IsUpper(s[i]) ==> r[i] == s[i]
    ensures forall i :: 0 <= i < |s| && IsUpper(s[i]) ==> r[i] as int - s[i] as int == 'a' as int - 'A' as int
  {
    seq(|s|, i requires 0 <= i < |s| => LowerChar(s[i]))
  }

  /** A string is truthy when it is present and not empty. */
  predicate Truthy(s: Option<string>)
  {
    s.Some? && s.value != ""
  }

  /** The `||` operator on an optional string: the string when it is truthy, otherwise the default. */
  function OrElse(s: Option<string>, default: string): (r: string)
    ensures Truthy(s) ==> r == s.value
    ensures !Truthy(s) ==> r == default
  {
    if Truthy(s) then s.value else default
  }

  /** `t` occurs in `s` starting at index `i`. */
  predicate OccursAt(s: string, t: string, i: nat)
  {
    i + |t| <= |s| && s[i..i + |t|] == t
  }

  /** String.prototype.includes: tries the start positions of `s` from left to right. */
  function Includes(s: string, t: string): (r: bool)
    ensures t == "" ==> r
    ensures r ==> |t| <= |s|
    decreases |s|
  {
    if |t| > |s| then false
    else if s[..|t|] == t then true
    else Includes(s[1..], t)
  }

  /** `includes` holds exactly when the text occurs at some index. */
  lemma {:induction false} IncludesIffOccurs(s: string, t: string)
    ensures Includes(s, t) <==> exists i: nat :: OccursAt(s, t, i)
    decreases |s|
  {
    if |t| > |s| {
      assert forall i: nat :: !OccursAt(s, t, i);
    } else if s[..|t|] == t {
      assert OccursAt(s, t, 0);
    } else {
      IncludesIffOccurs(s[1..], t);
      if Includes(s[1..], t) {
        var i: nat :| OccursAt(s[1..], t, i);
        assert s[1..][i..i + |t|] == s[i + 1..i + 1 + |t|];
        assert OccursAt(s, t, i + 1);
      }
      if i: nat :| OccursAt(s, t, i) {
        assert i != 0;
        assert s[1..][i - 1..i - 1 + |t|] == s[i..i + |t|];
        assert OccursAt(s[1..], t, i - 1);
      }
    }
  }

  /** The UTF-16 code units of one character: one below U+10000, a surrogate pair above. */
  function Utf16(c: char): (u: seq<int>)
    ensures 1 <= |u| <= 2
  {
    var v := c as int;
    if v < 0x1_0000 then [v]
    else [0xD800 + (v - 0x1_0000) / 0x400, 0xDC00 + (v - 0x1_0000) % 0x400]
  }

  /** The UTF-16 code units of a string, as JavaScript stores it. */
  function Encode(s: string): seq<int>
  {
    if s == [] then [] else Utf16(s[0]) + Encode(s[1..])
  }

  /** Lexicographic order on code-unit sequences, a proper prefix first. */
  predicate UnitsLess(a: seq<int>, b: seq<int>)
  {
    if a == [] then b != []
    else if b == [] then false
    else if a[0] != b[0] then a[0] < b[0]
    else UnitsLess(a[1..], b[1..])
  }

  /**
    The place of a character in code-unit order: characters below U+D800
    first, then those above U+FFFF (their first unit is a surrogate), then
    U+E000 to U+FFFF.
   */
  function CodeUnitRank(c: char): int
  {
    var v := c as int;
    if v < 0xD800 then v
    else if v >= 0x1_0000 then v - 0x1_0000 + 0xD800
    else v + 0x10_0000
  }

  /** The relational operator `<` on strings: the first differing character decides, by its code units. */
  predicate Less(a: string, b: string)
  {
    if a == [] then b != []
    else if b == [] then false
    else if a[0] != b[0] then CodeUnitRank(a[0]) < CodeUnitRank(b[0])
    else Less(a[1..], b[1..])
  }

  /** `a <= b` on strings: equal, or `<`. */
  predicate LessOrEqual(a: string, b: string)
  {
    a == b || Less(a, b)
  }

  lemma {:induction false} LessIrreflexive(a: string)
    ensures !Less(a, a)
  {
    if a != [] {
      LessIrreflexive(a[1..]);
    }
  }

  lemma {:induction false} LessTransitive(a: string, b: string, c: string)
    requires Less(a, b) && Less(b, c)
    ensures Less(a, c)
  {
    if a != [] && a[0] == b[0] && b[0] == c[0] {
      LessTransitive(a[1..], b[1..], c[1..]);
    }
  }

  /** Two strings are equal or one is `<` the other. */
  lemma {:induction false} LessTrichotomous(a: string, b: string)
    ensures a == b || Less(a, b) || Less(b, a)
  {
    if a != [] && b != [] && a[0] == b[0] {
      LessTrichotomous(a[1..], b[1..]);
      if a[1..] == b[1..] {
        assert a == [a[0]] + a[1..] && b == [b[0]] + b[1..];
      }
    }
  }

  lemma LessAsymmetric(a: string, b: string)
    requires Less(a, b)
    ensures !Less(b, a)
  {
    if Less(b, a) {
      LessTransitive(a, b, a);
      LessIrreflexive(a);
    }
  }

  /** `!(a < b)` is `b <= a`. */
  lemma NotLessIsLessOrEqual(a: string, b: string)
    ensures !Less(a, b) <==> LessOrEqual(b, a)
  {
    LessTrichotomous(a, b);
    LessIrreflexive(a);
    if Less(b, a) {
      LessAsymmetric(b, a);
    }
  }

  lemma LessOrEqualTransitive(a: string, b: string, c: string)
    requires LessOrEqual(a, b) && LessOrEqual(b, c)
    ensures LessOrEqual(a, c)
  {
    if a != b && b != c {
      LessTransitive(a, b, c);
    }
  }

  lemma {:induction false} UnitsLessSamePrefix(u: seq<int>, x: seq<int>, y: seq<int>)
    ensures UnitsLess(u + x, u + y) == UnitsLess(x, y)
  {
    if u == [] {
      assert u + x == x && u + y == y;
    } else {
      assert (u + x)[0] == (u + y)[0];
      assert (u + x)[1..] == u[1..] + x && (u + y)[1..] == u[1..] + y;
      UnitsLessSamePrefix(u[1..], x, y);
    }
  }

  /** Two different characters compare, whatever follows them, by their code units, which CodeUnitRank orders. */
  lemma CharUnitsLess(c: char, d: char, x: seq<int>, y: seq<int>)
    requires c != d
    ensures UnitsLess(Utf16(c) + x, Utf16(d) + y) == (CodeUnitRank(c) < CodeUnitRank(d))
  {
    var u, v := Utf16(c) + x, Utf16(d) + y;
    var cv, dv := c as int, d as int;
    if cv >= 0x1_0000 && dv >= 0x1_0000 && u[0] == v[0] {
      assert (cv - 0x1_0000) / 0x400 == (dv - 0x1_0000) / 0x400;
      assert u[1] != v[1];
      assert UnitsLess(u, v) == UnitsLess(u[1..], v[1..]);
    }
  }

  /** `Less` is the order of the strings' UTF-16 encodings. */
  lemma {:induction false} LessIsCodeUnitOrder(a: string, b: string)
    ensures Less(a, b) <==> UnitsLess(Encode(a), Encode(b))
  {
    if a != [] && b != [] {
      if a[0] == b[0] {
        LessIsCodeUnitOrder(a[1..], b[1..]);
        UnitsLessSamePrefix(Utf16(a[0]), Encode(a[1..]), Encode(b[1..]));
      } else {
        CharUnitsLess(a[0], b[0], Encode(a[1..]), Encode(b[1..]));
      }
    }
  }

  /** A character above U+FFFF sorts before one from U+E000 to U+FFFF, though its code point is larger. */
  lemma SupplementaryBeforeHighBmp(c: char, d: char)
    requires c as int >= 0x1_0000 && 0xE000 <= d as int <= 0xFFFF
    ensures Less([c], [d]) && !Less([d], [c])
  {
  }
}
