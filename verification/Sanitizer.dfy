/** Redaction of connection URLs from error text (crates/store/src/error.rs).

    `Redact` is the reference: one left-to-right scan of the input that never looks back.
    The loop in `RedactInPlace` searches the whole buffer again after every replacement,
    and the buffer may grow; the two agree because a replacement creates no new match. */
module Sanitizer {

  const MARKER: string := "<url-redacted>"

  /** The schemes, in the order of the passes. */
  const SCHEMES: seq<string> := ["postgresql://", "postgres://", "sqlite://"]

  /** Unicode White_Space, the property behind the standard library's `char::is_whitespace`. */
  predicate IsWhitespace(c: char) {
    var n := c as int;
    || 0x09 <= n <= 0x0D || n == 0x20 || n == 0x85 || n == 0xA0 || n == 0x1680
    || 0x2000 <= n <= 0x200A || n == 0x2028 || n == 0x2029 || n == 0x202F || n == 0x205F || n == 0x3000
  }

  predicate IsTerminator(c: char) {
    IsWhitespace(c) || c == '"' || c == '\'' || c == '>' || c == ')'
  }

  predicate TerminatorFree(s: string) {
    forall i | 0 <= i < |s| :: !IsTerminator(s[i])
  }

  /** The shape shared by the three schemes: `name://` with nothing in the name that ends a token. */
  predicate IsScheme(a: string) {
    && |a| >= 9
    && TerminatorFree(a)
    && (forall i | 0 <= i < |a| :: a[i] != '<' && (a[i] == ':' <==> i == |a| - 3) && (a[i] == '/' <==> i >= |a| - 2))
  }

  lemma SchemesAreSchemes(k: nat)
    requires k < 3
    ensures IsScheme(SCHEMES[k])
  {
    assert SCHEMES[0] == "postgresql://" && SCHEMES[1] == "postgres://" && SCHEMES[2] == "sqlite://";
  }

  /** The last character of the name. */
  function NameEnd(a: string): char
    requires IsScheme(a)
  {
    a[|a| - 4]
  }

  /** Different schemes have names with different last characters. */
  lemma SchemesDiffer(j: nat, k: nat)
    requires j < 3 && k < 3 && j != k
    ensures IsScheme(SCHEMES[j]) && IsScheme(SCHEMES[k]) && NameEnd(SCHEMES[j]) != NameEnd(SCHEMES[k])
  {
    SchemesAreSchemes(j);
    SchemesAreSchemes(k);
  }

  predicate StartsAt(s: string, i: nat, a: string) {
    i + |a| <= |s| && s[i..i + |a|] == a
  }

  predicate Contains(s: string, a: string) {
    exists i: nat | i <= |s| :: StartsAt(s, i, a)
  }

  /** The leftmost match, as `str::find` returns it. */
  method Find(s: string, a: string) returns (found: bool, start: nat)
    ensures found ==> StartsAt(s, start, a) && forall i: nat | i < start :: !StartsAt(s, i, a)
    ensures !found ==> !Contains(s, a)
  {
    start := 0;
    while start <= |s|
      invariant start <= |s| + 1
      invariant forall i: nat | i < start :: !StartsAt(s, i, a)
    {
      if start + |a| <= |s| && s[start..start + |a|] == a {
        return true, start;
      }
      start := start + 1;
    }
    found := false;
  }

  /** Length of the prefix before the first terminator. */
  function TokenEnd(s: string): (n: nat)
    ensures n <= |s|
    ensures TerminatorFree(s[..n])
    ensures n < |s| ==> IsTerminator(s[n])
  {
    if s == "" || IsTerminator(s[0]) then 0 else 1 + TokenEnd(s[1..])
  }

  lemma TokenEndUnique(s: string, n: nat)
    requires n <= |s| && TerminatorFree(s[..n]) && (n < |s| ==> IsTerminator(s[n]))
    ensures TokenEnd(s) == n
  {
    var m := TokenEnd(s);
    assert forall i | 0 <= i < n :: !IsTerminator(s[..n][i]) && s[..n][i] == s[i];
    assert forall i | 0 <= i < m :: !IsTerminator(s[..m][i]) && s[..m][i] == s[i];
  }

  /** A string that starts with a scheme has a token at least as long as the scheme. */
  lemma SchemeInsideToken(s: string, a: string)
    requires IsScheme(a) && a <= s
    ensures TokenEnd(s) >= |a|
  {
    assert forall i | 0 <= i < |a| :: a[i] == s[i];
  }

  function Redact(s: string, a: string): string
    requires IsScheme(a)
    decreases |s|
  {
    if s == "" then
      ""
    else if a <= s then
      SchemeInsideToken(s, a);
      MARKER + Redact(s[TokenEnd(s)..], a)
    else
      [s[0]] + Redact(s[1..], a)
  }

  lemma RedactAtScheme(s: string, a: string)
    requires IsScheme(a) && a <= s
    ensures Redact(s, a) == MARKER + Redact(s[TokenEnd(s)..], a)
  {}

  lemma RedactAtOther(s: string, a: string)
    requires IsScheme(a) && s != "" && !(a <= s)
    ensures Redact(s, a) == [s[0]] + Redact(s[1..], a)
  {}

  lemma DropFirstShifts(s: string, a: string, n: nat)
    requires 0 < n <= |s| && forall i: nat | i < n :: !StartsAt(s, i, a)
    ensures forall i: nat | i < n - 1 :: !StartsAt(s[1..], i, a)
  {
    forall i: nat | i < n - 1 ensures !StartsAt(s[1..], i, a) {
      assert !StartsAt(s, i + 1, a);
      if i + |a| <= |s[1..]| {
        assert s[1..][i..i + |a|] == s[i + 1..i + 1 + |a|];
      }
    }
  }

  /** Text before the first match is kept. */
  lemma {:induction false} RedactSkips(x: string, y: string, a: string)
    requires IsScheme(a) && forall i: nat | i < |x| :: !StartsAt(x + y, i, a)
    ensures Redact(x + y, a) == x + Redact(y, a)
    decreases |x|
  {
    if x == "" {
      assert x + y == y;
    } else {
      FirstOfConcat(x, y);
      assert !(a <= x + y) by { assert !StartsAt(x + y, 0, a); }
      DropFirstShifts(x + y, a, |x|);
      RedactSkips(x[1..], y, a);
      RedactAtOther(x + y, a);
      FirstOfConcat(x, Redact(y, a));
    }
  }

  lemma FirstOfConcat(x: string, y: string)
    requires x != ""
    ensures (x + y)[0] == x[0] && (x + y)[1..] == x[1..] + y
    ensures x + y == [x[0]] + (x[1..] + y)
  {}

  /** The facts about the marker that the proofs use. */
  predicate IsMarker(m: string) {
    && |m| == |MARKER|
    && m[0] == '<' && m[|m| - 1] == '>'
    && forall i | 0 <= i < |m| :: m[i] != '/'
  }

  lemma MarkerIsMarker()
    ensures IsMarker(MARKER)
  {}

  /** No scheme overlaps a marker: every match in `u + m + w` lies in `u` or in `w`. */
  lemma MatchAvoidsMarker(u: string, m: string, w: string, i: nat, a: string)
    requires IsScheme(a) && IsMarker(m) && StartsAt(u + m + w, i, a)
    ensures || (i + |a| <= |u| && StartsAt(u, i, a))
            || (|u| + |m| <= i && StartsAt(w, i - |u| - |m|, a))
  {
    var s := u + m + w;
    var last := i + |a| - 1;
    assert forall k | 0 <= k < |a| :: s[i..i + |a|][k] == s[i + k] == a[k];
    assert s[|u|] == '<' && s[|u| + |m| - 1] == '>';
    assert s[last] == a[|a| - 1] == '/';
    assert forall k | 0 <= k < |m| :: m[k] == s[|u| + k];
    assert forall k | i <= k <= last :: s[k] == a[k - i];
    if last < |u| {
      assert s[i..i + |a|] == u[i..i + |a|];
    } else {
      var j := i - |u| - |m|;
      assert s[i..i + |a|] == w[j..j + |a|];
    }
  }

  /** One pass of the outer loop: search the whole buffer, replace the leftmost match, search again. */
  method RedactInPlace(raw: string, a: string) returns (out: string)
    requires IsScheme(a)
    ensures out == Redact(raw, a)
  {
    out := raw;
    ghost var clean := 0;
    var found, start := Find(out, a);
    while found
      invariant clean <= |out|
      invariant forall i: nat | i < clean :: !StartsAt(out, i, a)
      invariant 0 <= start
      invariant found ==> StartsAt(out, start, a) && forall i: nat | i < start :: !StartsAt(out, i, a)
      invariant !found ==> !Contains(out, a)
      invariant Redact(out, a) == Redact(raw, a)
      decreases |out| - clean, found
    {
      var tail := out[start..];
      SchemeInsideToken(tail, a);
      var end := start + TokenEnd(tail);
      ghost var before := out;
      out := out[..start] + MARKER + out[end..];
      assert before == before[..start] + tail && before[end..] == tail[TokenEnd(tail)..];
      MarkerIsMarker();
      ReplaceKeepsRedaction(before[..start], MARKER, tail, before[end..], a);
      assert start >= clean by {
        assert forall i: nat | i < clean :: !StartsAt(before, i, a);
      }
      clean := start + |MARKER|;
      found, start := Find(out, a);
    }
    CleanIsKept(out, a);
  }

  /** Replacing the leftmost match leaves no match up to the end of the new marker. */
  lemma ReplaceIsClean(u: string, m: string, w: string, s: string, a: string)
    requires IsScheme(a) && IsMarker(m) && u <= s
    requires forall i: nat | i < |u| :: !StartsAt(s, i, a)
    ensures forall i: nat | i < |u| + |m| :: !StartsAt(u + m + w, i, a)
  {
    forall i: nat | i < |u| + |m| ensures !StartsAt(u + m + w, i, a) {
      assert StartsAt(u + m + w, i, a) ==> StartsAt(u, i, a) && i + |a| <= |u| by {
        if StartsAt(u + m + w, i, a) { MatchAvoidsMarker(u, m, w, i, a); }
      }
      assert i + |a| <= |u| ==> u[i..i + |a|] == s[i..i + |a|];
      assert i < |u| ==> !StartsAt(s, i, a);
    }
  }

  lemma RedactAfterReplace(u: string, m: string, w: string, v: string, a: string)
    requires IsScheme(a) && IsMarker(m)
    requires forall i: nat | i < |u| :: !StartsAt(u + v, i, a)
    ensures Redact(u + m + w, a) == u + m + Redact(w, a)
    ensures forall i: nat | i < |u| + |m| :: !StartsAt(u + m + w, i, a)
  {
    ReplaceIsClean(u, m, w, u + v, a);
    RedactSkips(u + m, w, a);
  }

  lemma RedactBeforeReplace(u: string, v: string, a: string)
    requires IsScheme(a) && a <= v
    requires forall i: nat | i < |u| :: !StartsAt(u + v, i, a)
    ensures Redact(u + v, a) == u + MARKER + Redact(v[TokenEnd(v)..], a)
  {
    RedactSkips(u, v, a);
    RedactAtScheme(v, a);
    var m, r := MARKER, Redact(v[TokenEnd(v)..], a);
    assert u + m + r == u + (m + r);
  }

  /** One iteration of the loop, with the buffer cut before the match: `u` then `v`. */
  lemma ReplaceKeepsRedaction(u: string, m: string, v: string, w: string, a: string)
    requires IsScheme(a) && a <= v && w == v[TokenEnd(v)..] && m == MARKER && IsMarker(m)
    requires forall i: nat | i < |u| :: !StartsAt(u + v, i, a)
    ensures Redact(u + m + w, a) == Redact(u + v, a)
    ensures forall i: nat | i < |u| + |m| :: !StartsAt(u + m + w, i, a)
  {
    RedactAfterReplace(u, m, w, v, a);
    RedactBeforeReplace(u, v, a);
  }

  /** Text without the scheme is returned unchanged. */
  lemma CleanIsKept(s: string, a: string)
    requires IsScheme(a) && !Contains(s, a)
    ensures Redact(s, a) == s
  {
    forall i: nat | i < |s| ensures !StartsAt(s, i, a) {}
    assert s + "" == s;
    RedactSkips(s, "", a);
  }

  // ---- What one pass removes and what it cannot create ----

  /** A '<'-free word at the head of the output was at the head of the input. */
  lemma {:induction false} HeadSurvives(s: string, a: string, b: string)
    requires IsScheme(a) && (forall i | 0 <= i < |b| :: b[i] != '<')
    requires b <= Redact(s, a)
    ensures b <= s
    decreases |b|
  {
    if b != "" {
      assert b[0] == Redact(s, a)[0];
      if !(a <= s) {
        assert Redact(s, a)[1..] == Redact(s[1..], a);
        HeadSurvives(s[1..], a, b[1..]);
        assert b == [b[0]] + b[1..] && s == [s[0]] + s[1..];
      }
    }
  }

  lemma AbsentBehindMarker(m: string, w: string, b: string)
    requires IsScheme(b) && IsMarker(m) && !Contains(w, b)
    ensures !Contains(m + w, b)
  {
    assert "" + m + w == m + w;
    forall i: nat | i <= |m + w| ensures !StartsAt(m + w, i, b) {
      if StartsAt(m + w, i, b) {
        MatchAvoidsMarker("", m, w, i, b);
        assert false;
      }
    }
  }

  lemma AbsentBehindChar(c: char, w: string, b: string)
    requires IsScheme(b) && !Contains(w, b) && !StartsAt([c] + w, 0, b)
    ensures !Contains([c] + w, b)
  {
    forall i: nat | i <= |[c] + w| ensures !StartsAt([c] + w, i, b) {
      if 0 < i && i + |b| <= |[c] + w| {
        assert ([c] + w)[i..i + |b|] == w[i - 1..i - 1 + |b|];
        assert !StartsAt(w, i - 1, b);
      }
    }
  }

  /** A pass for `a` leaves no `a`, and no scheme `b` that the input did not contain. */
  lemma {:induction false} PassRemoves(s: string, a: string, b: string)
    requires IsScheme(a) && IsScheme(b)
    requires a == b || !Contains(s, b)
    ensures !Contains(Redact(s, a), b)
    decreases |s|
  {
    if s == "" {
    } else if a <= s {
      SchemeInsideToken(s, a);
      DropKeepsAbsence(s, TokenEnd(s), a, b);
      PassRemoves(s[TokenEnd(s)..], a, b);
      MarkerIsMarker();
      AbsentBehindMarker(MARKER, Redact(s[TokenEnd(s)..], a), b);
    } else {
      DropKeepsAbsence(s, 1, a, b);
      PassRemoves(s[1..], a, b);
      var r := Redact(s, a);
      assert b <= s <==> StartsAt(s, 0, b);
      assert !StartsAt(r, 0, b) by {
        if StartsAt(r, 0, b) {
          HeadSurvives(s, a, b);
        }
      }
      AbsentBehindChar(s[0], Redact(s[1..], a), b);
    }
  }

  lemma DropKeepsAbsence(s: string, n: nat, a: string, b: string)
    requires n <= |s| && (a == b || !Contains(s, b))
    ensures a == b || !Contains(s[n..], b)
  {
    forall i: nat | i <= |s[n..]| ensures StartsAt(s[n..], i, b) ==> StartsAt(s, n + i, b) {
      if i + |b| <= |s[n..]| {
        assert s[n..][i..i + |b|] == s[n + i..n + i + |b|];
      }
    }
  }

  // ---- The three passes ----

  /** The text after the first `k` passes. */
  function Passes(s: string, k: nat): string
    requires k <= 3
  {
    if k == 0 then s else
      SchemesAreSchemes(k - 1);
      Redact(Passes(s, k - 1), SCHEMES[k - 1])
  }

  function Sanitize(s: string): string {
    Passes(s, 3)
  }

  /** The three passes in the order of the code. No stretch of the output is a scheme. */
  method SanitizeMessage(raw: string) returns (out: string)
    ensures out == Sanitize(raw)
    ensures forall i, j | 0 <= i <= j <= |out| ::
              out[i..j] != "postgresql://" && out[i..j] != "postgres://" && out[i..j] != "sqlite://"
  {
    out := raw;
    var k := 0;
    while k < |SCHEMES|
      invariant k <= 3
      invariant out == Passes(raw, k)
    {
      SchemesAreSchemes(k);
      out := RedactInPlace(out, SCHEMES[k]);
      k := k + 1;
    }
    SanitizeIsSchemeFree(raw);
    forall i, j | 0 <= i <= j <= |out|
      ensures out[i..j] != "postgresql://" && out[i..j] != "postgres://" && out[i..j] != "sqlite://"
    {
      SchemeFreeSlice(out, i, j);
    }
  }

  ghost predicate SchemeFree(s: string) {
    forall k: nat | k < 3 :: !Contains(s, SCHEMES[k])
  }

  lemma SchemeFreeSlice(s: string, i: nat, j: nat)
    requires SchemeFree(s) && i <= j <= |s|
    ensures s[i..j] != "postgresql://" && s[i..j] != "postgres://" && s[i..j] != "sqlite://"
  {
    assert !Contains(s, SCHEMES[0]) && !Contains(s, SCHEMES[1]) && !Contains(s, SCHEMES[2]);
    assert forall k: nat | k < 3 && |SCHEMES[k]| == j - i :: !StartsAt(s, i, SCHEMES[k]);
  }

  lemma {:induction false} PassesAreClean(s: string, k: nat, j: nat)
    requires j < k <= 3
    ensures !Contains(Passes(s, k), SCHEMES[j])
  {
    SchemesAreSchemes(k - 1);
    SchemesAreSchemes(j);
    if j < k - 1 {
      PassesAreClean(s, k - 1, j);
    }
    PassRemoves(Passes(s, k - 1), SCHEMES[k - 1], SCHEMES[j]);
  }

  /** No input leaves a connection URL in the output. */
  lemma SanitizeIsSchemeFree(s: string)
    ensures SchemeFree(Sanitize(s))
  {
    forall k: nat | k < 3 ensures !Contains(Sanitize(s), SCHEMES[k]) {
      PassesAreClean(s, 3, k);
    }
  }

  /** Exactly the texts without a scheme pass through unchanged. */
  lemma SanitizeFixesExactlyCleanText(s: string)
    ensures Sanitize(s) == s <==> SchemeFree(s)
  {
    if SchemeFree(s) {
      SchemesAreSchemes(0); SchemesAreSchemes(1); SchemesAreSchemes(2);
      CleanIsKept(s, SCHEMES[0]);
      assert Passes(s, 0) == s;
      assert Passes(s, 1) == s;
      CleanIsKept(s, SCHEMES[1]);
      assert Passes(s, 2) == s;
      CleanIsKept(s, SCHEMES[2]);
      assert Passes(s, 3) == s;
    }
    SanitizeIsSchemeFree(s);
  }

  lemma SanitizeIdempotent(s: string)
    ensures Sanitize(Sanitize(s)) == Sanitize(s)
  {
    SanitizeIsSchemeFree(s);
    SanitizeFixesExactlyCleanText(Sanitize(s));
  }

  // ---- Terminators separate the text ----

  lemma SplitFacts(s: string, t: char, r: string, a: string)
    requires IsScheme(a) && IsTerminator(t)
    ensures var w := s + [t] + r;
            && (a <= w <==> a <= s)
            && (a <= s ==> 0 < TokenEnd(s) == TokenEnd(w))
            && (s == "" ==> w[1..] == r)
  {
    var w := s + [t] + r;
    assert a <= w ==> forall i | 0 <= i < |a| :: w[i] == a[i];
    assert w[|s|] == t;
    assert a <= w ==> a <= s by {
      if a <= w { assert w[..|a|] == s[..|a|]; }
    }
    if a <= s {
      SchemeInsideToken(s, a);
      assert w[..TokenEnd(s)] == s[..TokenEnd(s)];
      TokenEndUnique(w, TokenEnd(s));
    }
  }

  lemma {:induction false} RedactSplits(s: string, t: char, r: string, a: string)
    requires IsScheme(a) && IsTerminator(t)
    ensures Redact(s + [t] + r, a) == Redact(s, a) + [t] + Redact(r, a)
    decreases |s|
  {
    var w := s + [t] + r;
    SplitFacts(s, t, r, a);
    if s == "" {
      RedactAtOther(w, a);
    } else {
      var n := if a <= s then TokenEnd(s) else 1;
      var head := if a <= s then MARKER else [s[0]];
      RedactSplits(s[n..], t, r, a);
      SplitDrop(s, t, r, n);
      if a <= s {
        RedactAtScheme(w, a);
        RedactAtScheme(s, a);
      } else {
        RedactAtOther(w, a);
        RedactAtOther(s, a);
      }
      SplitAssoc(head, Redact(s[n..], a), [t], Redact(r, a));
    }
  }

  lemma SplitDrop(s: string, t: char, r: string, n: nat)
    requires 0 < n <= |s|
    ensures var w := s + [t] + r; w[n..] == s[n..] + [t] + r && w[0] == s[0]
  {}

  lemma SplitAssoc(head: string, x: string, y: string, z: string)
    ensures head + (x + y + z) == (head + x) + y + z
  {}

  lemma {:induction false} PassesSplit(s: string, t: char, r: string, k: nat)
    requires IsTerminator(t) && k <= 3
    ensures Passes(s + [t] + r, k) == Passes(s, k) + [t] + Passes(r, k)
  {
    if k > 0 {
      PassesSplit(s, t, r, k - 1);
      SchemesAreSchemes(k - 1);
      RedactSplits(Passes(s, k - 1), t, Passes(r, k - 1), SCHEMES[k - 1]);
    }
  }

  const SEPARATOR: string := " | "

  lemma SanitizeSplits(s: string, t: char, r: string)
    requires IsTerminator(t)
    ensures Sanitize(s + [t] + r) == Sanitize(s) + [t] + Sanitize(r)
  {
    PassesSplit(s, t, r, 3);
  }

  lemma ShortTextIsClean(s: string)
    requires |s| < 9
    ensures SchemeFree(s)
  {
    forall k: nat | k < 3 ensures !Contains(s, SCHEMES[k]) { SchemesAreSchemes(k); }
  }

  lemma ShortTextIsKept(s: string)
    requires |s| < 9
    ensures Sanitize(s) == s
  {
    ShortTextIsClean(s);
    SanitizeFixesExactlyCleanText(s);
  }

  lemma SanitizeSplitsAtSeparator(s: string, r: string)
    ensures Sanitize(s + SEPARATOR + r) == Sanitize(s) + SEPARATOR + Sanitize(r)
  {
    var rest := "|" + [' '] + r;
    assert s + SEPARATOR + r == s + [' '] + rest;
    SanitizeSplits(s, ' ', rest);
    SanitizeSplits("|", ' ', r);
    ShortTextIsKept("|");
  }

  // ---- The error chain ----

  /** `layers.join(" | ")` */
  function JoinLayers(layers: seq<string>): string {
    if |layers| == 0 then ""
    else if |layers| == 1 then layers[0]
    else layers[0] + SEPARATOR + JoinLayers(layers[1..])
  }

  function SanitizeEach(layers: seq<string>): (r: seq<string>)
    ensures |r| == |layers|
  {
    if layers == [] then [] else [Sanitize(layers[0])] + SanitizeEach(layers[1..])
  }

  lemma {:induction false} SanitizeDistributesOverJoin(layers: seq<string>)
    ensures Sanitize(JoinLayers(layers)) == JoinLayers(SanitizeEach(layers))
  {
    if |layers| == 0 {
      ShortTextIsKept("");
    } else if |layers| == 1 {
      assert SanitizeEach(layers) == [Sanitize(layers[0])];
    } else {
      SanitizeSplitsAtSeparator(layers[0], JoinLayers(layers[1..]));
      SanitizeDistributesOverJoin(layers[1..]);
      assert SanitizeEach(layers)[1..] == SanitizeEach(layers[1..]);
    }
  }

  /** The message of a chain: one layer is sanitised, and the parts of a longer chain follow
      each other with a bar between them. */
  lemma {:induction false} ChainMessageConcatenates(a: seq<string>, b: seq<string>)
    requires a != [] && b != []
    ensures Sanitize(JoinLayers([a[0]])) == Sanitize(a[0])
    ensures Sanitize(JoinLayers(a + b)) == Sanitize(JoinLayers(a)) + " | " + Sanitize(JoinLayers(b))
  {
    var rest := JoinLayers((a + b)[1..]);
    assert (a + b)[0] == a[0];
    SanitizeSplitsAtSeparator(a[0], rest);
    if |a| == 1 {
      assert (a + b)[1..] == b;
    } else {
      assert (a + b)[1..] == a[1..] + b;
      ChainMessageConcatenates(a[1..], b);
      SanitizeSplitsAtSeparator(a[0], JoinLayers(a[1..]));
      var x, y, z := Sanitize(a[0]), Sanitize(JoinLayers(a[1..])), Sanitize(JoinLayers(b));
      assert x + SEPARATOR + (y + " | " + z) == (x + SEPARATOR + y) + " | " + z;
    }
  }

  lemma {:induction false} SanitizeEachAppend(layers: seq<string>, last: string)
    ensures SanitizeEach(layers + [last]) == SanitizeEach(layers) + [Sanitize(last)]
  {
    if layers != [] {
      assert (layers + [last])[1..] == layers[1..] + [last];
      SanitizeEachAppend(layers[1..], last);
    } else {
      assert (layers + [last])[1..] == [];
    }
  }

  /** The walk over an error and its sources; `layers` are their texts, outermost first.
      The result is what sanitising the joined raw text in one go would give, and it can be
      cut before any layer into the messages of the two parts of the chain. */
  method SanitizeFullChain(layers: seq<string>) returns (message: string)
    requires layers != []
    ensures message == Sanitize(JoinLayers(layers))
    ensures SchemeFree(message)
    ensures |layers| == 1 ==> message == Sanitize(layers[0])
    ensures forall n | 0 < n < |layers| ::
              message == Sanitize(JoinLayers(layers[..n])) + " | " + Sanitize(JoinLayers(layers[n..]))
  {
    var first := SanitizeMessage(layers[0]);
    var parts := [first];
    var cur := 1;
    assert layers[..1] == [] + [layers[0]];
    SanitizeEachAppend([], layers[0]);
    while cur < |layers|
      invariant 1 <= cur <= |layers|
      invariant parts == SanitizeEach(layers[..cur])
    {
      var clean := SanitizeMessage(layers[cur]);
      parts := parts + [clean];
      SanitizeEachAppend(layers[..cur], layers[cur]);
      assert layers[..cur + 1] == layers[..cur] + [layers[cur]];
      cur := cur + 1;
    }
    assert layers[..cur] == layers;
    message := JoinLayers(parts);
    SanitizeDistributesOverJoin(layers);
    SanitizeIsSchemeFree(JoinLayers(layers));
    forall n | 0 < n < |layers|
      ensures message == Sanitize(JoinLayers(layers[..n])) + " | " + Sanitize(JoinLayers(layers[n..]))
    {
      assert layers == layers[..n] + layers[n..];
      ChainMessageConcatenates(layers[..n], layers[n..]);
    }
  }

  // ---- What follows a scheme does not influence the output ----

  /** A match in `pre + s + body` never overlaps the scheme `s` in the middle, except to coincide with it. */
  lemma MatchAvoidsScheme(pre: string, s: string, body: string, i: nat, a: string)
    requires IsScheme(a) && IsScheme(s) && StartsAt(pre + s + body, i, a)
    requires NameEnd(a) != NameEnd(s) || (a == s && i != |pre|)
    ensures i + |a| <= |pre| || |pre| + |s| <= i
  {
    var w := pre + s + body;
    assert forall k | 0 <= k < |a| :: w[i..i + |a|][k] == w[i + k] == a[k];
    assert forall k | i <= k < i + |a| :: w[k] == a[k - i];
    assert forall k | |pre| <= k < |pre| + |s| :: w[k] == s[k - |pre|];
    var colon := |pre| + |s| - 3;
    assert forall k | i <= k < i + |a| :: w[k] == ':' ==> k == i + |a| - 3;
    assert forall k | i <= k < i + |a| :: w[k] == '/' ==> k >= i + |a| - 2;
    assert forall k | |pre| <= k < |pre| + |s| :: w[k] == '/' <==> k > colon;
    assert w[i] == a[0] != '/';
    assert w[colon] == s[|s| - 3] == ':';
    assert w[colon - 1] == NameEnd(s);
    assert w[i + |a| - 4] == NameEnd(a);
    assert w[i + |a| - 1] == a[|a| - 1] == '/';
  }

  lemma HeadMatchIsInPrefix(pre: string, s: string, body: string, a: string)
    requires IsScheme(a) && IsScheme(s) && pre != ""
    requires NameEnd(a) != NameEnd(s) || a == s
    ensures a <= pre + s + body <==> a <= pre
  {
    var w := pre + s + body;
    assert |a| <= |pre| ==> w[..|a|] == pre[..|a|];
    if a <= w {
      assert StartsAt(w, 0, a);
      MatchAvoidsScheme(pre, s, body, 0, a);
    }
  }

  /** The token that starts `pre + s + body` ends where the one starting `pre` does, or swallows everything. */
  lemma TokenOfPrefix(pre: string, s: string, body: string)
    requires IsScheme(s) && TerminatorFree(body)
    ensures var n, w := TokenEnd(pre), pre + s + body;
            TokenEnd(w) == (if n < |pre| then n else |w|)
  {
    var n, w := TokenEnd(pre), pre + s + body;
    assert w[..n] == pre[..n];
    if n < |pre| {
      TokenEndUnique(w, n);
    } else {
      assert pre[..n] == pre && w[..|w|] == w;
      TokenEndUnique(w, |w|);
    }
  }

  lemma EarlierSchemeAbsent(s: string, body: string, a: string)
    requires IsScheme(a) && IsScheme(s) && NameEnd(a) != NameEnd(s) && !Contains(body, a)
    ensures !Contains(s + body, a)
  {
    var w := "" + s + body;
    assert w == s + body;
    forall i: nat | i <= |w| ensures !StartsAt(w, i, a) {
      if StartsAt(w, i, a) {
        MatchAvoidsScheme("", s, body, i, a);
        assert w[i..i + |a|] == body[i - |s|..i - |s| + |a|];
        assert StartsAt(body, i - |s|, a);
      }
    }
  }

  lemma DropsOfPrefix(pre: string, s: string, body: string, n: nat)
    requires n <= |pre|
    ensures var w := pre + s + body; w[n..] == pre[n..] + s + body && w[|w|..] == ""
  {}

  /** One step of a pass inside the prefix does not depend on the body. */
  lemma PrefixStep(pre: string, s: string, body: string, a: string)
    requires IsScheme(a) && IsScheme(s) && pre != "" && TerminatorFree(body)
    requires NameEnd(a) != NameEnd(s) || a == s
    ensures var n := TokenEnd(pre);
            Redact(pre + s + body, a) ==
            if !(a <= pre) then [pre[0]] + Redact(pre[1..] + s + body, a)
            else if n < |pre| then MARKER + Redact(pre[n..] + s + body, a)
            else MARKER + Redact("", a)
  {
    var n, w := TokenEnd(pre), pre + s + body;
    HeadMatchIsInPrefix(pre, s, body, a);
    DropsOfPrefix(pre, s, body, n);
    DropsOfPrefix(pre, s, body, 1);
    if a <= pre {
      TokenOfPrefix(pre, s, body);
      RedactAtScheme(w, a);
    } else {
      assert w[0] == pre[0];
      RedactAtOther(w, a);
    }
  }

  lemma ConsConcat(head: string, pre: string, s: string, body: string)
    ensures head + (pre + s + body) == head + pre + s + body
  {}

  /** A pass for another scheme either keeps `s` and the body in place or removes both;
      which of the two happens depends on the prefix alone. */
  lemma {:induction false} OtherPass(pre: string, s: string, body1: string, body2: string, a: string)
    returns (hidden: bool, pre': string)
    requires IsScheme(a) && IsScheme(s) && NameEnd(a) != NameEnd(s)
    requires TerminatorFree(body1) && !Contains(body1, a)
    requires TerminatorFree(body2) && !Contains(body2, a)
    ensures hidden ==> Redact(pre + s + body1, a) == Redact(pre + s + body2, a)
    ensures !hidden ==> Redact(pre + s + body1, a) == pre' + s + body1
    ensures !hidden ==> Redact(pre + s + body2, a) == pre' + s + body2
    decreases |pre|
  {
    if pre == "" {
      EarlierSchemeAbsent(s, body1, a);
      EarlierSchemeAbsent(s, body2, a);
      assert pre + s + body1 == s + body1 && pre + s + body2 == s + body2;
      CleanIsKept(s + body1, a);
      CleanIsKept(s + body2, a);
      return false, "";
    }
    PrefixStep(pre, s, body1, a);
    PrefixStep(pre, s, body2, a);
    var n := TokenEnd(pre);
    if a <= pre && n == |pre| {
      return true, "";
    }
    var head, rest;
    if a <= pre {
      SchemeInsideToken(pre, a);
      head, rest := MARKER, pre[n..];
    } else {
      head, rest := [pre[0]], pre[1..];
    }
    hidden, pre' := OtherPass(rest, s, body1, body2, a);
    ConsConcat(head, pre', s, body1);
    ConsConcat(head, pre', s, body2);
    pre' := head + pre';
  }

  /** A token that starts with the scheme becomes one marker. */
  lemma WholeTokenIsMarker(s: string, a: string)
    requires IsScheme(a) && a <= s && TerminatorFree(s)
    ensures Redact(s, a) == MARKER
  {
    assert s[..|s|] == s;
    TokenEndUnique(s, |s|);
    RedactAtScheme(s, a);
    assert s[|s|..] == "";
    assert MARKER + "" == MARKER;
  }

  /** The pass for `s` itself removes the body. */
  lemma {:induction false} OwnPass(pre: string, s: string, body1: string, body2: string)
    requires IsScheme(s) && TerminatorFree(body1) && TerminatorFree(body2)
    ensures Redact(pre + s + body1, s) == Redact(pre + s + body2, s)
    decreases |pre|
  {
    if pre == "" {
      assert pre + s + body1 == s + body1 && pre + s + body2 == s + body2;
      WholeTokenIsMarker(s + body1, s);
      WholeTokenIsMarker(s + body2, s);
    } else {
      PrefixStep(pre, s, body1, s);
      PrefixStep(pre, s, body2, s);
      if !(s <= pre) {
        OwnPass(pre[1..], s, body1, body2);
      } else if TokenEnd(pre) < |pre| {
        SchemeInsideToken(pre, s);
        OwnPass(pre[TokenEnd(pre)..], s, body1, body2);
      }
    }
  }

  /** The body of a URL of the `k`th scheme: it runs up to a terminator, and the passes
      before the `k`th find nothing in it. */
  ghost predicate UrlBody(body: string, k: nat)
    requires k < 3
  {
    TerminatorFree(body) && forall j: nat | j < k :: !Contains(body, SCHEMES[j])
  }

  lemma {:induction false} EarlierPasses(pre: string, k: nat, body1: string, body2: string, j: nat)
    returns (hidden: bool, pre': string)
    requires j <= k < 3 && UrlBody(body1, k) && UrlBody(body2, k)
    ensures var s := SCHEMES[k];
            if hidden then Passes(pre + s + body1, j) == Passes(pre + s + body2, j)
            else Passes(pre + s + body1, j) == pre' + s + body1 && Passes(pre + s + body2, j) == pre' + s + body2
  {
    if j == 0 {
      return false, pre;
    }
    hidden, pre' := EarlierPasses(pre, k, body1, body2, j - 1);
    SchemesDiffer(j - 1, k);
    if !hidden {
      hidden, pre' := OtherPass(pre', SCHEMES[k], body1, body2, SCHEMES[j - 1]);
    }
  }

  lemma {:induction false} PassesAgreeFrom(s1: string, s2: string, j: nat, k: nat)
    requires j <= k <= 3 && Passes(s1, j) == Passes(s2, j)
    ensures Passes(s1, k) == Passes(s2, k)
  {
    if j < k {
      PassesAgreeFrom(s1, s2, j, k - 1);
    }
  }

  lemma LastUrlBodyIsHidden(pre: string, k: nat, body1: string, body2: string)
    requires k < 3 && UrlBody(body1, k) && UrlBody(body2, k)
    ensures Sanitize(pre + SCHEMES[k] + body1) == Sanitize(pre + SCHEMES[k] + body2)
  {
    var s := SCHEMES[k];
    SchemesAreSchemes(k);
    var hidden, pre' := EarlierPasses(pre, k, body1, body2, k);
    if !hidden {
      OwnPass(pre', s, body1, body2);
    }
    PassesAgreeFrom(pre + s + body1, pre + s + body2, k + 1, 3);
  }

  /** Two messages that differ only in the body of a URL are sanitised to the same text,
      whatever stands before and after the URL. */
  lemma UrlBodyIsHidden(pre: string, k: nat, body1: string, body2: string, post: string)
    requires k < 3 && UrlBody(body1, k) && UrlBody(body2, k)
    requires post == "" || IsTerminator(post[0])
    ensures Sanitize(pre + SCHEMES[k] + body1 + post) == Sanitize(pre + SCHEMES[k] + body2 + post)
  {
    var u1, u2 := pre + SCHEMES[k] + body1, pre + SCHEMES[k] + body2;
    LastUrlBodyIsHidden(pre, k, body1, body2);
    if post == "" {
      assert u1 + post == u1 && u2 + post == u2;
    } else {
      assert post == [post[0]] + post[1..];
      assert u1 + post == u1 + [post[0]] + post[1..];
      assert u2 + post == u2 + [post[0]] + post[1..];
      SanitizeSplits(u1, post[0], post[1..]);
      SanitizeSplits(u2, post[0], post[1..]);
    }
  }

  // ---- What is left of a URL ----

  /** `m` closing brackets. */
  function Brackets(m: nat): (r: string)
    ensures |r| == m
    ensures forall i | 0 <= i < m :: r[i] == '>'
  {
    if m == 0 then "" else Brackets(m - 1) + ['>']
  }

  lemma {:induction false} RedactBeforeBrackets(s: string, m: nat, a: string)
    requires IsScheme(a)
    ensures Redact(s + Brackets(m), a) == Redact(s, a) + Brackets(m)
  {
    if m == 0 {
      assert s + "" == s && Redact(s, a) + "" == Redact(s, a);
    } else {
      RedactBeforeBrackets(s, m - 1, a);
      var t := s + Brackets(m - 1);
      RedactSplits(t, '>', "", a);
      assert s + Brackets(m) == t + ['>'] + "";
      assert Redact(s, a) + Brackets(m) == (Redact(s, a) + Brackets(m - 1)) + ['>'] + "";
    }
  }

  lemma MarkerEndsInBracket(marker: string) returns (z: string)
    requires marker == MARKER
    ensures marker == z + Brackets(1) && TerminatorFree(z)
  {
    z := marker[..|marker| - 1];
    assert Brackets(1) == Brackets(0) + ['>'];
    assert forall i | 0 <= i < |marker| - 1 :: !IsTerminator(marker[i]);
  }

  /** A pass cuts a token at its first match: what stays behind the cut is one bracket. */
  lemma {:induction false} TokenIsCut(x: string, a: string) returns (z: string)
    requires IsScheme(a) && TerminatorFree(x) && Contains(x, a)
    ensures Redact(x, a) == z + Brackets(1) && TerminatorFree(z)
    decreases |x|
  {
    if a <= x {
      WholeTokenIsMarker(x, a);
      z := MarkerEndsInBracket(MARKER);
    } else {
      MatchBehindFirst(x, a);
      var y := TokenIsCut(x[1..], a);
      RedactAtOther(x, a);
      z := [x[0]] + y;
      assert z + Brackets(1) == [x[0]] + (y + Brackets(1));
    }
  }

  lemma MatchBehindFirst(x: string, a: string)
    requires Contains(x, a) && !(a <= x)
    ensures x != "" && Contains(x[1..], a)
  {
    var i: nat :| i <= |x| && StartsAt(x, i, a);
    assert x[..|a|] == x[0..|a|] || i > 0;
    assert x[1..][i - 1..i - 1 + |a|] == x[i..i + |a|];
    assert StartsAt(x[1..], i - 1, a);
  }

  lemma OneMoreBracket(z: string, m: nat)
    ensures z + Brackets(1) + Brackets(m) == z + Brackets(m + 1)
  {}

  /** The first `j` passes on a token: a token again, and one bracket for each pass that
      found something. */
  lemma {:induction false} PassesOnToken(body: string, j: nat) returns (x: string, m: nat)
    requires j <= 3 && TerminatorFree(body)
    ensures Passes(body, j) == x + Brackets(m) && TerminatorFree(x) && m <= j
    ensures m == 0 <==> forall i: nat | i < j :: !Contains(body, SCHEMES[i])
    ensures m == 0 ==> x == body
  {
    if j == 0 {
      assert body + "" == body;
      return body, 0;
    }
    x, m := PassesOnToken(body, j - 1);
    var a := SCHEMES[j - 1];
    SchemesAreSchemes(j - 1);
    RedactBeforeBrackets(x, m, a);
    if Contains(x, a) {
      var z := TokenIsCut(x, a);
      OneMoreBracket(z, m);
      x, m := z, m + 1;
    } else {
      CleanIsKept(x, a);
    }
  }

  /** A pass works on what follows the scheme `u` when it can match neither before nor at it. */
  lemma RedactBehindScheme(pre: string, u: string, body: string, a: string)
    requires IsScheme(u) && IsScheme(a) && NameEnd(a) != NameEnd(u) && !Contains(pre, a)
    ensures Redact(pre + u + body, a) == pre + u + Redact(body, a)
  {
    NoMatchBefore(pre, u, body, a);
    RedactSkips(pre + u, body, a);
  }

  lemma NoMatchBefore(pre: string, u: string, body: string, a: string)
    requires IsScheme(u) && IsScheme(a) && !Contains(pre, a)
    requires NameEnd(a) != NameEnd(u) || a == u
    ensures forall i: nat | i < |pre| || (a != u && i < |pre| + |u|) :: !StartsAt(pre + u + body, i, a)
  {
    var w := pre + u + body;
    forall i: nat | i < |pre| || (a != u && i < |pre| + |u|) ensures !StartsAt(w, i, a) {
      if StartsAt(w, i, a) {
        MatchAvoidsScheme(pre, u, body, i, a);
        assert w[i..i + |a|] == pre[i..i + |a|];
        assert StartsAt(pre, i, a);
      }
    }
  }

  lemma {:induction false} PassesBehindScheme(pre: string, k: nat, body: string, j: nat)
    requires j <= k < 3 && SchemeFree(pre)
    ensures Passes(pre + SCHEMES[k] + body, j) == pre + SCHEMES[k] + Passes(body, j)
  {
    if j > 0 {
      PassesBehindScheme(pre, k, body, j - 1);
      SchemesDiffer(j - 1, k);
      RedactBehindScheme(pre, SCHEMES[k], Passes(body, j - 1), SCHEMES[j - 1]);
    }
  }

  /** The pass for `u` itself cuts the token at `u`. */
  lemma OwnPassCuts(pre: string, u: string, x: string, m: nat)
    requires IsScheme(u) && TerminatorFree(x) && !Contains(pre, u)
    ensures Redact(pre + u + (x + Brackets(m)), u) == pre + MARKER + Brackets(m)
  {
    NoMatchBefore(pre, u, x, u);
    assert pre + u + x == pre + (u + x);
    RedactSkips(pre, u + x, u);
    WholeTokenIsMarker(u + x, u);
    RedactBeforeBrackets(pre + u + x, m, u);
    assert pre + u + (x + Brackets(m)) == pre + u + x + Brackets(m);
  }

  /** Nothing after a marker and brackets is left for a pass to find. */
  lemma MarkedIsClean(pre: string, marker: string, m: nat, a: string)
    requires IsScheme(a) && IsMarker(marker) && !Contains(pre, a)
    ensures !Contains(pre + marker + Brackets(m), a)
  {
    var s := pre + marker + Brackets(m);
    BracketsAreClean(m, a);
    forall i: nat | i <= |s| ensures !StartsAt(s, i, a) {
      if StartsAt(s, i, a) {
        MatchAvoidsMarker(pre, marker, Brackets(m), i, a);
        assert false;
      }
    }
  }

  lemma BracketsAreClean(m: nat, a: string)
    requires IsScheme(a)
    ensures forall i: nat :: !StartsAt(Brackets(m), i, a)
  {
    forall i: nat ensures !StartsAt(Brackets(m), i, a) {
      assert i + |a| <= m ==> Brackets(m)[i..i + |a|][0] == '>';
    }
  }

  lemma {:induction false} LaterPassesKeepMarked(s: string, pre: string, m: nat, j: nat, n: nat)
    requires j <= n <= 3 && SchemeFree(pre) && Passes(s, j) == pre + MARKER + Brackets(m)
    ensures Passes(s, n) == pre + MARKER + Brackets(m)
  {
    if j < n {
      LaterPassesKeepMarked(s, pre, m, j, n - 1);
      SchemesAreSchemes(n - 1);
      MarkerIsMarker();
      MarkedIsClean(pre, MARKER, m, SCHEMES[n - 1]);
      CleanIsKept(pre + MARKER + Brackets(m), SCHEMES[n - 1]);
    }
  }

  /** What is left of a URL, whatever its body, behind any text without a scheme: one marker,
      and a bracket for each earlier pass that found its own scheme nested in the body. Not a
      character of the body survives. */
  lemma UrlResidue(pre: string, k: nat, body: string) returns (m: nat)
    requires k < 3 && SchemeFree(pre) && TerminatorFree(body)
    ensures Sanitize(pre + SCHEMES[k] + body) == pre + MARKER + Brackets(m)
    ensures m <= k && (m == 0 <==> UrlBody(body, k))
  {
    var s, x := pre + SCHEMES[k] + body, "";
    SchemesAreSchemes(k);
    x, m := PassesOnToken(body, k);
    PassesBehindScheme(pre, k, body, k);
    OwnPassCuts(pre, SCHEMES[k], x, m);
    LaterPassesKeepMarked(s, pre, m, k + 1, 3);
  }

  lemma ResidueIsOneMarker(pre: string, m: nat)
    ensures pre + MARKER + Brackets(m) == pre + MARKER <==> m == 0
  {
    assert |pre + MARKER + Brackets(m)| == |pre + MARKER| + m;
    assert pre + MARKER + "" == pre + MARKER;
  }

  /** Behind text without a scheme, glued to it or not, a URL becomes exactly one marker if
      and only if no earlier pass finds its own scheme inside the body. */
  lemma UrlIsOneMarkerExactlyWhen(pre: string, k: nat, body: string)
    requires k < 3 && SchemeFree(pre) && TerminatorFree(body)
    ensures Sanitize(pre + SCHEMES[k] + body) == pre + MARKER <==> UrlBody(body, k)
  {
    var m := UrlResidue(pre, k, body);
    ResidueIsOneMarker(pre, m);
  }

  /** The same for a text that starts with the URL. */
  lemma LoneUrlIsOneMarker(k: nat, body: string)
    requires k < 3 && TerminatorFree(body)
    ensures Sanitize(SCHEMES[k] + body) == MARKER <==> UrlBody(body, k)
  {
    ShortTextIsClean("");
    UrlIsOneMarkerExactlyWhen("", k, body);
    EmptyInFront(SCHEMES[k], body);
  }

  lemma EmptyInFront(u: string, body: string)
    ensures "" + u + body == u + body && "" + MARKER == MARKER
  {}

  lemma SanitizeBeforePost(s: string, post: string)
    requires post == "" || IsTerminator(post[0])
    ensures Sanitize(s + post) == Sanitize(s) + Sanitize(post)
  {
    ShortTextIsKept("");
    if post == "" {
      assert s + post == s && Sanitize(s) + "" == Sanitize(s);
    } else {
      var c, rest := post[0], post[1..];
      assert s + post == s + [c] + rest && post == "" + [c] + rest;
      SanitizeSplits(s, c, rest);
      SanitizeSplits("", c, rest);
      assert Sanitize(s) + [c] + Sanitize(rest) == Sanitize(s) + ("" + [c] + Sanitize(rest));
    }
  }

  /** A URL in running text, glued to scheme-free text `lead` after the last terminator: it
      becomes one marker, with everything around it sanitised on its own, if and only if no
      earlier pass finds its own scheme inside the body; otherwise brackets follow the marker. */
  lemma UrlInContext(pre: string, t: char, lead: string, k: nat, body: string, post: string) returns (m: nat)
    requires IsTerminator(t) && k < 3 && SchemeFree(lead) && TerminatorFree(body)
    requires post == "" || IsTerminator(post[0])
    ensures Sanitize(pre + [t] + (lead + SCHEMES[k] + body + post))
            == Sanitize(pre) + [t] + (lead + MARKER + Brackets(m) + Sanitize(post))
    ensures Sanitize(pre + [t] + (lead + SCHEMES[k] + body + post))
            == Sanitize(pre) + [t] + (lead + MARKER + Sanitize(post))
            <==> UrlBody(body, k)
    ensures m <= k && (m == 0 <==> UrlBody(body, k))
  {
    m := UrlResidue(lead, k, body);
    SanitizeSplits(pre, t, lead + SCHEMES[k] + body + post);
    SanitizeBeforePost(lead + SCHEMES[k] + body, post);
    ContextDiffers(Sanitize(pre) + [t], lead + MARKER, m, Sanitize(post));
  }

  /** The characters that end a URL: quotes, two closing brackets and white space. */
  lemma TerminatorsAre(c: char)
    ensures IsTerminator(c) <==>
            c in {'"', '\'', '>', ')', '\t', '\n', '\U{000B}', '\U{000C}', '\r', ' ', '\U{0085}', '\U{00A0}',
                  '\U{1680}', '\U{2000}', '\U{2001}', '\U{2002}', '\U{2003}', '\U{2004}', '\U{2005}', '\U{2006}',
                  '\U{2007}', '\U{2008}', '\U{2009}', '\U{200A}', '\U{2028}', '\U{2029}', '\U{202F}', '\U{205F}',
                  '\U{3000}'}
  {}

  lemma NoSliceNoMatch(body: string, a: string, scheme: string, url: string, earlier: set<string>)
    requires scheme <= url && body == url[|scheme|..] && a in earlier
    requires forall i, j | |scheme| <= i <= j <= |url| :: url[i..j] !in earlier
    ensures !Contains(body, a)
  {
    forall i: nat | i <= |body| ensures !StartsAt(body, i, a) {
      assert i + |a| <= |body| ==> body[i..i + |a|] == url[|scheme| + i..|scheme| + i + |a|];
    }
  }

  lemma TokenBecomesMarker(k: nat, earlier: set<string>, url: string, rest: string)
    requires k < 3 && SCHEMES[k] <= url && forall j: nat | j < k :: SCHEMES[j] in earlier
    requires forall i, j | |SCHEMES[k]| <= i <= j <= |url| :: url[i..j] !in earlier
    requires (forall c | c in url :: !IsTerminator(c)) && (rest == "" || IsTerminator(rest[0]))
    ensures Sanitize(url + rest) == MARKER + Sanitize(rest)
  {
    var body := url[|SCHEMES[k]|..];
    assert url == SCHEMES[k] + body;
    forall i | 0 <= i < |body| ensures !IsTerminator(body[i]) {
      assert body[i] in url;
    }
    forall j: nat | j < k ensures !Contains(body, SCHEMES[j]) {
      NoSliceNoMatch(body, SCHEMES[j], SCHEMES[k], url, earlier);
    }
    LoneUrlIsOneMarker(k, body);
    SanitizeBeforePost(url, rest);
  }

  /** The documented promise, spelled out: a PostgreSQL or SQLite URL up to the first
      terminator, or up to the end of the text, becomes the marker, and what follows is
      sanitised on its own. Any other character belongs to the URL. The one exception is a
      URL that contains a scheme which the code replaces earlier. */
  lemma UrlBecomesMarker(scheme: string, earlier: set<string>, url: string, rest: string)
    requires || (scheme == "postgresql://" && earlier == {})
             || (scheme == "postgres://" && earlier == {"postgresql://"})
             || (scheme == "sqlite://" && earlier == {"postgresql://", "postgres://"})
    requires scheme <= url
    requires forall i, j | |scheme| <= i <= j <= |url| :: url[i..j] !in earlier
    requires var ends :=
               {'"', '\'', '>', ')', '\t', '\n', '\U{000B}', '\U{000C}', '\r', ' ', '\U{0085}', '\U{00A0}', '\U{1680}',
                '\U{2000}', '\U{2001}', '\U{2002}', '\U{2003}', '\U{2004}', '\U{2005}', '\U{2006}', '\U{2007}',
                '\U{2008}', '\U{2009}', '\U{200A}', '\U{2028}', '\U{2029}', '\U{202F}', '\U{205F}', '\U{3000}'};
             (forall c | c in url :: c !in ends) && (rest == "" || rest[0] in ends)
    ensures Sanitize(url + rest) == "<url-redacted>" + Sanitize(rest)
  {
    forall c: char | c in url ensures !IsTerminator(c) {
      TerminatorsAre(c);
    }
    if rest != "" { TerminatorsAre(rest[0]); }
    TokenBecomesMarker(|earlier|, earlier, url, rest);  // the scheme has as many earlier ones as its place in the list
  }

  lemma ContextDiffers(before: string, marked: string, m: nat, after: string)
    ensures before + (marked + Brackets(m) + after) == before + (marked + after) <==> m == 0
  {
    assert |before + (marked + Brackets(m) + after)| == |before + (marked + after)| + m;
    assert marked + "" == marked;
  }

  /** Every token that contains a scheme is cut at the first one: what stands before it is
      kept, a marker follows, and nothing else of the token but stray brackets. Together with
      `SanitizeSplits` this says what becomes of any text. */
  lemma TokenIsCutAtFirstUrl(token: string) returns (i: nat, k: nat, m: nat)
    requires TerminatorFree(token) && !SchemeFree(token)
    ensures k < 3 && StartsAt(token, i, SCHEMES[k]) && SchemeFree(token[..i])
    ensures Sanitize(token) == token[..i] + MARKER + Brackets(m) && m <= k
  {
    assert token[..|token|] == token;
    i, k := FirstScheme(token, |token|);
    var u := SCHEMES[k];
    var pre, body := token[..i], token[i + |u|..];
    assert token == pre + u + body;
    m := UrlResidue(pre, k, body);
  }

  lemma {:induction false} FirstScheme(s: string, n: nat) returns (i: nat, k: nat)
    requires n <= |s| && !SchemeFree(s[..n])
    ensures k < 3 && StartsAt(s, i, SCHEMES[k]) && SchemeFree(s[..i])
    decreases n
  {
    k :| k < 3 && Contains(s[..n], SCHEMES[k]);
    i :| i <= n && StartsAt(s[..n], i, SCHEMES[k]);
    assert s[..n][i..i + |SCHEMES[k]|] == s[i..i + |SCHEMES[k]|];
    if !SchemeFree(s[..i]) {
      SchemesAreSchemes(k);
      i, k := FirstScheme(s, i);
    }
  }

  /** A body that the earlier passes turn into a marker leaves one bracket. */
  lemma NestedMarkerLeavesBracket(k: nat, body: string)
    requires k < 3 && Passes(body, k) == MARKER
    ensures Sanitize(SCHEMES[k] + body) == MARKER + Brackets(1)
  {
    var u := SCHEMES[k];
    SchemesAreSchemes(k);
    ShortTextIsClean("");
    PassesBehindScheme("", k, body, k);
    var x := MarkerEndsInBracket(MARKER);
    OwnPassCuts("", u, x, 1);
    EmptyInFront(u, body);
    LaterPassesKeepMarked(u + body, "", 1, k + 1, 3);
  }

  lemma ShortPostgresUrlIsMarker(body: string)
    requires |body| < |SCHEMES[0]| && SCHEMES[1] <= body && TerminatorFree(body)
    ensures Passes(body, 2) == MARKER
  {
    SchemesAreSchemes(0);
    SchemesAreSchemes(1);
    CleanIsKept(body, SCHEMES[0]);
    assert Passes(body, 1) == Redact(Passes(body, 0), SCHEMES[0]);
    WholeTokenIsMarker(body, SCHEMES[1]);
  }

  lemma NestedBody(body: string)
    requires body == "postgres://x"
    ensures |body| < |SCHEMES[0]| && SCHEMES[1] <= body && TerminatorFree(body)
  {}

  lemma OneBracket()
    ensures Brackets(1) == ">"
  {
    assert Brackets(1) == Brackets(0) + ['>'];
  }

  /** The documentation's "entire match" fails on a URL nested in another one. */
  lemma NestedUrlLeavesText(body: string)
    requires body == "postgres://x"
    ensures Sanitize(SCHEMES[2] + body) == MARKER + ">"
  {
    NestedBody(body);
    ShortPostgresUrlIsMarker(body);
    NestedMarkerLeavesBracket(2, body);
    OneBracket();
  }
}
