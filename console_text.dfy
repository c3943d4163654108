/** The string operations the gallery's filter and sort rely on
    (emote_console.py:109-118): `str.lower`, `str.strip`, the `in` substring
    test and the code-point order `sort` compares keys with. */
module ConsoleText {

  /** `str.lower` on one character, for the ASCII letters. */
  function LowerChar(c: char): char {
    if 'A' <= c <= 'Z' then (c as int + 32) as char else c
  }

  function Lower(s: string): (r: string)
    ensures |r| == |s|
    ensures forall i :: 0 <= i < |s| ==> r[i] == LowerChar(s[i])
  {
    seq(|s|, i requires 0 <= i < |s| => LowerChar(s[i]))
  }

  /** Lower-casing leaves no upper-case ASCII letter and changes nothing the
      second time. */
  lemma LowerIdempotent(s: string)
    ensures forall i :: 0 <= i < |Lower(s)| ==> !('A' <= Lower(s)[i] <= 'Z')
    ensures Lower(Lower(s)) == Lower(s)
  {
    assert forall i :: 0 <= i < |s| ==> LowerChar(LowerChar(s[i])) == LowerChar(s[i]);
  }

  /** Python's `str.isspace`: the characters `str.strip()` removes. */
  predicate IsSpace(c: char) {
    var n := c as int;
    (0x09 <= n <= 0x0D) || (0x1C <= n <= 0x20) || n == 0x85 || n == 0xA0 || n == 0x1680 ||
    (0x2000 <= n <= 0x200A) || n == 0x2028 || n == 0x2029 || n == 0x202F || n == 0x205F || n == 0x3000
  }

  function StripStart(s: string): string {
    if s != [] && IsSpace(s[0]) then StripStart(s[1..]) else s
  }

  function StripEnd(s: string): string {
    if s != [] && IsSpace(s[|s| - 1]) then StripEnd(s[..|s| - 1]) else s
  }

  /** `str.strip()` */
  function Strip(s: string): string {
    StripEnd(StripStart(s))
  }

  lemma {:induction false} StripStartSplits(s: string)
    ensures |StripStart(s)| <= |s| && StripStart(s) == s[|s| - |StripStart(s)|..]
    ensures forall i :: 0 <= i < |s| - |StripStart(s)| ==> IsSpace(s[i])
    ensures StripStart(s) == [] || !IsSpace(StripStart(s)[0])
  {
    if s != [] && IsSpace(s[0]) {
      StripStartSplits(s[1..]);
      assert forall i :: 1 <= i < |s| ==> s[i] == s[1..][i - 1];
    }
  }

  lemma {:induction false} StripEndSplits(s: string)
    ensures |StripEnd(s)| <= |s| && StripEnd(s) == s[..|StripEnd(s)|]
    ensures forall i :: |StripEnd(s)| <= i < |s| ==> IsSpace(s[i])
    ensures StripEnd(s) == [] || !IsSpace(StripEnd(s)[|StripEnd(s)| - 1])
  {
    if s != [] && IsSpace(s[|s| - 1]) {
      StripEndSplits(s[..|s| - 1]);
    }
  }

  /** `r` is the part of `s` starting at `i`, with only whitespace around it. */
  predicate SpacesAround(s: string, r: string, i: int) {
    0 <= i <= |s| - |r| && r == s[i..i + |r|] &&
    (forall k :: 0 <= k < i ==> IsSpace(s[k])) &&
    (forall k :: i + |r| <= k < |s| ==> IsSpace(s[k]))
  }

  /** `strip()` keeps a contiguous middle part of its input, removes only
      whitespace around it, and leaves no whitespace at either end. */
  lemma StripSpec(s: string)
    ensures exists i :: SpacesAround(s, Strip(s), i)
    ensures Strip(s) == [] || (!IsSpace(Strip(s)[0]) && !IsSpace(Strip(s)[|Strip(s)| - 1]))
  {
    var l := StripStart(s);
    var r := StripEnd(l);
    StripStartSplits(s);
    StripEndSplits(l);
    var i := |s| - |l|;
    assert r == s[i..i + |r|] by {
      assert l == s[i..] && r == l[..|r|];
    }
    assert forall k :: 0 <= k < i ==> IsSpace(s[k]);
    forall k | i + |r| <= k < |s| ensures IsSpace(s[k]) {
      assert s[k] == l[k - i];
    }
    if r != [] {
      assert r[0] == l[0];
    }
    assert r == Strip(s);
    assert SpacesAround(s, Strip(s), i);
  }

  /** The filter text as the gallery uses it: `filter_var.get().lower().strip()`. */
  function Query(text: string): string {
    Strip(Lower(text))
  }

  /** The query is the lower-cased filter text with the whitespace at both
      ends cut off: a contiguous part of it, with no whitespace at either end,
      and already lower-case. */
  lemma QuerySpec(text: string)
    ensures exists i :: SpacesAround(Lower(text), Query(text), i)
    ensures Query(text) == [] || (!IsSpace(Query(text)[0]) && !IsSpace(Query(text)[|Query(text)| - 1]))
    ensures Lower(Query(text)) == Query(text)
  {
    var l := Lower(text);
    var q := Query(text);
    StripSpec(l);
    LowerIdempotent(text);
    var i :| SpacesAround(l, q, i);
    assert forall k :: 0 <= k < |q| ==> q[k] == l[i + k];
    assert forall k :: 0 <= k < |q| ==> Lower(q)[k] == q[k];
  }

  predicate IsPrefix(q: string, s: string) {
    |q| <= |s| && s[..|q|] == q
  }

  predicate OccursAt(q: string, s: string, i: int) {
    0 <= i <= |s| - |q| && s[i..i + |q|] == q
  }

  /** `q in s` for strings. */
  predicate Contains(q: string, s: string) {
    IsPrefix(q, s) || (s != [] && Contains(q, s[1..]))
  }

  /** `q in s` holds exactly when `q` occurs in `s` at some position. */
  lemma {:induction false} ContainsSpec(q: string, s: string)
    ensures Contains(q, s) <==> exists i :: OccursAt(q, s, i)
  {
    if IsPrefix(q, s) {
      assert OccursAt(q, s, 0);
    }
    if s != [] {
      ContainsSpec(q, s[1..]);
      if Contains(q, s[1..]) {
        var i :| OccursAt(q, s[1..], i);
        assert s[i + 1..i + 1 + |q|] == s[1..][i..i + |q|];
        assert OccursAt(q, s, i + 1);
      }
      if exists i :: OccursAt(q, s, i) {
        var i :| OccursAt(q, s, i);
        if i > 0 {
          assert s[1..][i - 1..i - 1 + |q|] == s[i..i + |q|];
          assert OccursAt(q, s[1..], i - 1);
        }
      }
    } else if exists i :: OccursAt(q, s, i) {
      var i :| OccursAt(q, s, i);
      assert IsPrefix(q, s);
    }
  }

  /** The empty string is in every string. */
  lemma ContainsEmpty(s: string)
    ensures Contains([], s)
  {
  }

  /** Python's `a <= b` on strings: code point by code point, a proper prefix first. */
  predicate LexLe(a: string, b: string) {
    a == [] || (b != [] && (a[0] < b[0] || (a[0] == b[0] && LexLe(a[1..], b[1..]))))
  }

  lemma {:induction false} LexLeReflexive(a: string)
    ensures LexLe(a, a)
  {
    if a != [] {
      LexLeReflexive(a[1..]);
    }
  }

  lemma {:induction false} LexLeTotal(a: string, b: string)
    ensures LexLe(a, b) || LexLe(b, a)
  {
    if a != [] && b != [] && a[0] == b[0] {
      LexLeTotal(a[1..], b[1..]);
    }
  }

  lemma {:induction false} LexLeAntisymmetric(a: string, b: string)
    requires LexLe(a, b) && LexLe(b, a)
    ensures a == b
  {
    if a != [] && b != [] {
      LexLeAntisymmetric(a[1..], b[1..]);
      assert a == [a[0]] + a[1..] && b == [b[0]] + b[1..];
    }
  }

  lemma {:induction false} LexLeTransitive(a: string, b: string, c: string)
    requires LexLe(a, b) && LexLe(b, c)
    ensures LexLe(a, c)
  {
    if a != [] && b != [] && c != [] && a[0] == b[0] && b[0] == c[0] {
      LexLeTransitive(a[1..], b[1..], c[1..]);
    }
  }
}
