/** The identifier normaliser `norm` of emote_common.py: display names become
    file-system-safe tokens. */
module EmoteNames {

  /** The characters the pattern `[A-Za-z0-9._-]` accepts. */
  predicate IsSafe(c: char) {
    ('A' <= c <= 'Z') || ('a' <= c <= 'z') || ('0' <= c <= '9') || c == '.' || c == '_' || c == '-'
  }

  predicate AllSafe(s: string) {
    forall i :: 0 <= i < |s| ==> IsSafe(s[i])
  }

  /** Drops the leading run of unsafe characters. */
  function DropUnsafe(s: string): (r: string)
    ensures |r| <= |s|
  {
    if s != [] && !IsSafe(s[0]) then DropUnsafe(s[1..]) else s
  }

  /** `SAFE_CHARS.sub("_", s)`: every maximal run of unsafe characters becomes one `_`. */
  function Substitute(s: string): string
    decreases |s|
  {
    if s == [] then []
    else if IsSafe(s[0]) then [s[0]] + Substitute(s[1..])
    else "_" + Substitute(DropUnsafe(s[1..]))
  }

  /** `str.lstrip("_")`: drops every leading underscore. */
  function TrimLeft(s: string): string {
    if s != [] && s[0] == '_' then TrimLeft(s[1..]) else s
  }

  /** `str.rstrip("_")`: drops every trailing underscore. */
  function TrimRight(s: string): string {
    if s != [] && s[|s| - 1] == '_' then TrimRight(s[..|s| - 1]) else s
  }

  /** `str.strip("_")` */
  function Trim(s: string): string {
    TrimRight(TrimLeft(s))
  }

  /** What survives the replace-and-trim, before the placeholder fallback. */
  function Clean(s: string): string {
    Trim(Substitute(s))
  }

  const Placeholder: string := "emote"

  /** `norm(name)` (emote_common.py:50-52): never empty, only safe characters,
      and no underscore at either end. */
  function Norm(s: string): (r: string)
    ensures r != [] && AllSafe(r)
    ensures r[0] != '_' && r[|r| - 1] != '_'
  {
    var clean := Clean(s);
    SubstituteIsSafe(s);
    TrimEnds(Substitute(s));
    if clean == [] then Placeholder else clean
  }

  lemma SafeSuffix(s: string, a: nat)
    requires a <= |s| && AllSafe(s)
    ensures AllSafe(s[a..])
  {
    forall i | 0 <= i < |s[a..]| ensures IsSafe(s[a..][i]) { assert s[a..][i] == s[a + i]; }
  }

  lemma SafePrefix(s: string, b: nat)
    requires b <= |s| && AllSafe(s)
    ensures AllSafe(s[..b])
  {
    forall i | 0 <= i < b ensures IsSafe(s[..b][i]) { assert s[..b][i] == s[i]; }
  }

  /** The substitution leaves only safe characters. */
  lemma {:induction false} SubstituteIsSafe(s: string)
    ensures AllSafe(Substitute(s))
    ensures |Substitute(s)| <= |s|
    decreases |s|
  {
    if s == [] {
    } else if IsSafe(s[0]) {
      SubstituteIsSafe(s[1..]);
    } else {
      SubstituteIsSafe(DropUnsafe(s[1..]));
    }
  }

  /** The leading run `DropUnsafe` removes is exactly the unsafe prefix. */
  lemma {:induction false} DropUnsafeSplits(s: string)
    ensures |DropUnsafe(s)| <= |s| && DropUnsafe(s) == s[|s| - |DropUnsafe(s)|..]
    ensures DropUnsafe(s) == [] || IsSafe(DropUnsafe(s)[0])
    ensures forall i :: 0 <= i < |s| - |DropUnsafe(s)| ==> !IsSafe(s[i])
  {
    if s != [] && !IsSafe(s[0]) {
      DropUnsafeSplits(s[1..]);
      assert forall i :: 1 <= i < |s| - |DropUnsafe(s)| ==> s[i] == s[1..][i - 1];
    }
  }

  lemma {:induction false} TrimLeftSplits(s: string)
    ensures |TrimLeft(s)| <= |s| && TrimLeft(s) == s[|s| - |TrimLeft(s)|..]
    ensures TrimLeft(s) == [] || TrimLeft(s)[0] != '_'
    ensures forall k :: 0 <= k < |s| - |TrimLeft(s)| ==> s[k] == '_'
  {
    if s != [] && s[0] == '_' {
      TrimLeftSplits(s[1..]);
      assert forall k :: 1 <= k < |s| ==> s[k] == s[1..][k - 1];
    }
  }

  lemma {:induction false} TrimRightSplits(s: string)
    ensures |TrimRight(s)| <= |s| && TrimRight(s) == s[..|TrimRight(s)|]
    ensures TrimRight(s) == [] || TrimRight(s)[|TrimRight(s)| - 1] != '_'
    ensures forall k :: |TrimRight(s)| <= k < |s| ==> s[k] == '_'
  {
    if s != [] && s[|s| - 1] == '_' {
      TrimRightSplits(s[..|s| - 1]);
      assert forall k :: 0 <= k < |s| - 1 ==> s[k] == s[..|s| - 1][k];
    }
  }

  /** `s` is `t` with only underscores before it, starting at `i`, and after it. */
  predicate UnderscoresAround(s: string, t: string, i: nat) {
    i + |t| <= |s| && t == s[i..i + |t|] &&
    (forall k :: 0 <= k < i ==> s[k] == '_') &&
    (forall k :: i + |t| <= k < |s| ==> s[k] == '_')
  }

  /** Trimming removes only underscores, and only at the ends: what is left
      is a contiguous part of the input, with no underscore at either end. */
  lemma TrimEnds(s: string)
    ensures Trim(s) == [] || (Trim(s)[0] != '_' && Trim(s)[|Trim(s)| - 1] != '_')
    ensures |TrimLeft(s)| <= |s| && UnderscoresAround(s, Trim(s), |s| - |TrimLeft(s)|)
    ensures AllSafe(s) ==> AllSafe(Trim(s))
  {
    var l := TrimLeft(s);
    var r := TrimRight(l);
    var i := |s| - |l|;
    TrimLeftSplits(s);
    TrimRightSplits(l);
    assert r == s[i..i + |r|];
    assert forall k :: i + |r| <= k < |s| ==> s[k] == l[k - i];
    assert r == Trim(s);
    if r != [] {
      assert r[0] == l[0] && r[|r| - 1] != '_';
    }
    if AllSafe(s) {
      SafeSuffix(s, |s| - |l|);
      SafePrefix(l, |r|);
    }
  }

  /** A string made of safe characters only is left alone by the substitution. */
  lemma {:induction false} SubstituteKeepsSafe(s: string)
    requires AllSafe(s)
    ensures Substitute(s) == s
  {
    if s != [] {
      SafeSuffix(s, 1);
      SubstituteKeepsSafe(s[1..]);
    }
  }

  /** A maximal run of unsafe characters, followed by a safe character or by
      nothing, collapses to exactly one underscore. */
  lemma {:induction false} RunCollapses(u: string, t: string)
    requires u != [] && forall i :: 0 <= i < |u| ==> !IsSafe(u[i])
    requires t == [] || IsSafe(t[0])
    ensures Substitute(u + t) == "_" + Substitute(t)
  {
    var s := u + t;
    assert s[0] == u[0] && s[1..] == u[1..] + t;
    assert forall i :: 0 <= i < |u[1..]| ==> !IsSafe(u[1..][i]) by {
      forall i | 0 <= i < |u[1..]| ensures !IsSafe(u[1..][i]) { assert u[1..][i] == u[i + 1]; }
    }
    DropsWholeRun(u[1..], t);
    assert Substitute(s) == "_" + Substitute(DropUnsafe(s[1..]));
  }

  lemma {:induction false} DropsWholeRun(u: string, t: string)
    requires forall i :: 0 <= i < |u| ==> !IsSafe(u[i])
    requires t == [] || IsSafe(t[0])
    ensures DropUnsafe(u + t) == t
  {
    if u == [] {
      assert u + t == t;
    } else {
      assert (u + t)[0] == u[0] && (u + t)[1..] == u[1..] + t;
      assert forall i :: 0 <= i < |u[1..]| ==> !IsSafe(u[1..][i]) by {
        forall i | 0 <= i < |u[1..]| ensures !IsSafe(u[1..][i]) { assert u[1..][i] == u[i + 1]; }
      }
      DropsWholeRun(u[1..], t);
    }
  }

  /** Safe characters pass through the substitution unchanged. */
  lemma {:induction false} SafeCharsPassThrough(a: string, t: string)
    requires AllSafe(a)
    ensures Substitute(a + t) == a + Substitute(t)
  {
    if a != [] {
      assert (a + t)[0] == a[0] && (a + t)[1..] == a[1..] + t;
      SafeSuffix(a, 1);
      SafeCharsPassThrough(a[1..], t);
    } else {
      assert a + t == t;
    }
  }

  lemma TrimKeepsTrimmed(s: string)
    requires s != [] && s[0] != '_' && s[|s| - 1] != '_'
    ensures Trim(s) == s
  {
  }

  /** `norm` is idempotent. */
  lemma NormIdempotent(s: string)
    ensures Norm(Norm(s)) == Norm(s)
  {
    var n := Norm(s);
    SubstituteKeepsSafe(n);
    TrimKeepsTrimmed(n);
  }

  /** `norm` gives the placeholder exactly when nothing survives the
      replace-and-trim, or when what survives is the placeholder itself;
      otherwise it gives what survives, which is the substituted name with
      only underscores cut from its ends. */
  lemma NormPlaceholder(s: string)
    ensures Norm(s) == Placeholder <==> (Clean(s) == [] || Clean(s) == Placeholder)
    ensures Clean(s) != [] ==> Norm(s) == Clean(s)
    ensures Clean(s) != [] ==> exists i: nat :: UnderscoresAround(Substitute(s), Norm(s), i)
  {
    TrimEnds(Substitute(s));
  }

  /** A name that is already a clean token followed by a run of unsafe
      characters normalises to the token: the run is replaced and trimmed away. */
  lemma NormDropsTrailingRun(a: string, u: string)
    requires AllSafe(a) && a != [] && a[0] != '_' && a[|a| - 1] != '_'
    requires u != [] && forall i :: 0 <= i < |u| ==> !IsSafe(u[i])
    ensures Norm(a + u) == a
  {
    SafeCharsPassThrough(a, u);
    assert u + [] == u;
    RunCollapses(u, []);
    var t := a + "_";
    assert Substitute(a + u) == t;
    assert t[..|t| - 1] == a;
    assert TrimLeft(t) == t;
    TrimKeepsTrimmed(a);
  }

  lemma NormDropsTrailingPunctuation()
    ensures Norm("Poggers!!") == "Poggers"
  {
    assert "Poggers!!" == "Poggers" + "!!";
    NormDropsTrailingRun("Poggers", "!!");
  }

  lemma NormFallsBackToPlaceholder()
    ensures Norm("***") == "emote"
  {
    assert "***" == "***" + "";
    RunCollapses("***", "");
    assert Clean("***") == [];
  }

  lemma NormReplacesSeparators()
    ensures Norm("a/b\\c") == "a_b_c"
  {
    assert "a/b\\c" == "a" + ("/" + ("b" + ("\\" + "c")));
    SafeCharsPassThrough("a", "/b\\c");
    RunCollapses("/", "b\\c");
    SafeCharsPassThrough("b", "\\c");
    RunCollapses("\\", "c");
    SubstituteKeepsSafe("c");
    assert Substitute("a/b\\c") == "a_b_c";
    TrimKeepsTrimmed("a_b_c");
  }

  lemma NormKeepsExistingUnderscores()
    ensures Norm("a_!b") == "a__b"
  {
    assert "a_!b" == "a_" + ("!" + "b");
    SafeCharsPassThrough("a_", "!b");
    RunCollapses("!", "b");
    SubstituteKeepsSafe("b");
    assert Substitute("a_!b") == "a__b";
    TrimKeepsTrimmed("a__b");
  }
}
