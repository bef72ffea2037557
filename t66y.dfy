/** The content sanitizer of the t66y forum route: unwrapping of redirector
    links (`killRedircdn`), removal of invalid characters
    (`removeInvalidChars`) and the rewrites `parseContent` applies to the
    first post of a thread. */
module T66y {
  import opened Common
  import opened Strings

  // ---------------------------------------------------------------------
  // killRedircdn
  // ---------------------------------------------------------------------

  /** The characters JavaScript's `.` does not match. */
  predicate IsLineTerminator(c: char) {
    c == '\n' || c == '\r' || c == '\U{2028}' || c == '\U{2029}'
  }

  predicate NoLineTerminators(s: string) {
    forall i :: 0 <= i < |s| ==> !IsLineTerminator(s[i])
  }

  /** The redirector's query marker that introduces the embedded target. */
  const RedirectMarker := "?http"
  /** The token the redirector writes in place of every `.`. */
  const DotToken := "______"
  /** The marker the redirector appends to the embedded target. */
  const HtmlSuffix := "&z"

  /** The index of the first line terminator in `s`, if any. */
  function FirstLineTerminator(s: string): (r: Option<nat>)
    ensures r.Some? ==> r.value < |s| && IsLineTerminator(s[r.value])
    ensures r.Some? ==> NoLineTerminators(s[..r.value])
    ensures r.None? ==> NoLineTerminators(s)
  {
    if s == [] then None
    else if IsLineTerminator(s[0]) then Some(0)
    else match FirstLineTerminator(s[1..])
      case None => None
      case Some(i) =>
        assert s[..i + 1] == [s[0]] + s[1..][..i];
        Some(i + 1)
  }

  /** One line under `/.*\?http/g`: the only match starts at the line's
      first character and the greedy `.*` reaches the line's last `?http`. */
  function StripLine(line: string): string {
    match LastIndexOf(line, RedirectMarker)
    case None => line
    case Some(k) => "http" + line[k + |RedirectMarker|..]
  }

  /** `s.replaceAll(/.*\?http/g, 'http')`: since `.` stops at line
      terminators, every line is stripped on its own. */
  function StripRedirectPrefix(s: string): string
    decreases |s|
  {
    match FirstLineTerminator(s)
    case None => StripLine(s)
    case Some(i) => StripLine(s[..i]) + [s[i]] + StripRedirectPrefix(s[i + 1..])
  }

  /** `/______/` matches at the head of `s`. */
  predicate DotTokenAt(s: string) {
    |s| >= 6 && s[0] == '_' && s[1] == '_' && s[2] == '_' && s[3] == '_' && s[4] == '_' && s[5] == '_'
  }

  /** `s.replaceAll(/______/g, '.')`: runs of six underscores, scanned left
      to right without overlap, each become one `.`. */
  function ReplaceDotTokens(s: string): string
    decreases |s|
  {
    if DotTokenAt(s) then "." + ReplaceDotTokens(s[6..])
    else if s == [] then []
    else [s[0]] + ReplaceDotTokens(s[1..])
  }

  /** Without a match at its head, the first occurrence in `s` is one place
      after the first occurrence in its tail. */
  lemma FirstIndexOfShift(s: string, pat: string)
    requires pat != [] && s != [] && !OccursAt(s, pat, 0)
    ensures FirstIndexOf(s, pat) ==
              match FirstIndexOf(s[1..], pat)
              case None => None
              case Some(k) => Some(k + 1)
  {
    forall k | 0 <= k && k + 1 + |pat| <= |s|
      ensures OccursAt(s[1..], pat, k) <==> OccursAt(s, pat, k + 1)
    {
      assert s[1..][k..k + |pat|] == s[k + 1..k + 1 + |pat|];
    }
    var here, there := FirstIndexOf(s, pat), FirstIndexOf(s[1..], pat);
    if here.Some? {
      assert here.value > 0;
      assert OccursAt(s[1..], pat, here.value - 1);
    }
    if there.Some? {
      assert OccursAt(s, pat, there.value + 1);
    }
  }

  /** `s.replace(pat, '')` with a string pattern: only the first occurrence
      is removed, wherever it is. */
  function RemoveFirst(s: string, pat: string): string
    requires pat != []
    decreases |s|
  {
    if StartsWith(s, pat) then s[|pat|..]
    else if s == [] then []
    else [s[0]] + RemoveFirst(s[1..], pat)
  }

  /** The result is `s` without its first occurrence of `pat`, or `s`
      itself when there is none. */
  predicate RemovesFirst(s: string, pat: string, r: string)
    requires pat != []
  {
    match FirstIndexOf(s, pat)
    case None => r == s
    case Some(k) => r == s[..k] + s[k + |pat|..]
  }

  lemma {:induction false} RemoveFirstSound(s: string, pat: string)
    requires pat != []
    ensures RemovesFirst(s, pat, RemoveFirst(s, pat))
    decreases |s|
  {
    if StartsWith(s, pat) {
      RemoveFirstAtHead(s, pat);
    } else if s != [] {
      RemoveFirstSound(s[1..], pat);
      RemoveFirstPastHead(s, pat);
    }
  }

  lemma RemoveFirstAtHead(s: string, pat: string)
    requires pat != [] && StartsWith(s, pat)
    ensures RemovesFirst(s, pat, RemoveFirst(s, pat))
  {
    assert OccursAt(s, pat, 0);
    assert FirstIndexOf(s, pat) == Some(0);
    assert s[..0] + s[|pat|..] == s[|pat|..];
  }

  lemma RemoveFirstPastHead(s: string, pat: string)
    requires pat != [] && s != [] && !StartsWith(s, pat)
    requires RemovesFirst(s[1..], pat, RemoveFirst(s[1..], pat))
    ensures RemovesFirst(s, pat, RemoveFirst(s, pat))
  {
    var rest := RemoveFirst(s[1..], pat);
    assert RemoveFirst(s, pat) == [s[0]] + rest;
    assert !OccursAt(s, pat, 0);
    FirstIndexOfShift(s, pat);
    match FirstIndexOf(s[1..], pat)
    case None => RemoveFirstNoneLater(s, pat, rest);
    case Some(k) => RemoveFirstFoundLater(s, pat, k, rest);
  }

  lemma RemoveFirstNoneLater(s: string, pat: string, rest: string)
    requires pat != [] && s != []
    requires FirstIndexOf(s, pat).None? && rest == s[1..]
    ensures RemovesFirst(s, pat, [s[0]] + rest)
  {
    assert [s[0]] + s[1..] == s;
  }

  lemma RemoveFirstFoundLater(s: string, pat: string, k: nat, rest: string)
    requires pat != [] && k + 1 + |pat| <= |s|
    requires FirstIndexOf(s, pat) == Some(k + 1)
    requires rest == s[1..][..k] + s[1..][k + |pat|..]
    ensures RemovesFirst(s, pat, [s[0]] + rest)
  {
    SpliceAfterHead(s, k, |pat|);
  }

  /** `killRedircdn(href)` */
  function KillRedircdn(href: string): string {
    RemoveFirst(ReplaceDotTokens(StripRedirectPrefix(href)), HtmlSuffix)
  }

  /** On one line, everything up to and including the last `?http` becomes
      `http`. */
  lemma StripRedirectPrefixOnOneLine(s: string, k: nat)
    requires NoLineTerminators(s)
    requires OccursAt(s, RedirectMarker, k)
    requires forall j :: k < j ==> !OccursAt(s, RedirectMarker, j)
    ensures StripRedirectPrefix(s) == "http" + s[k + |RedirectMarker|..]
  {
    assert FirstLineTerminator(s).None?;
    assert LastIndexOf(s, RedirectMarker) == Some(k);
  }

  /** A string in which `?http` does not occur is left unchanged, whatever
      line terminators it holds. */
  lemma {:induction false} StripRedirectPrefixWithoutMarker(s: string)
    requires !Contains(s, RedirectMarker)
    ensures StripRedirectPrefix(s) == s
    decreases |s|
  {
    match FirstLineTerminator(s)
    case None =>
      assert forall k :: !OccursAt(s, RedirectMarker, k);
    case Some(i) =>
      var line, rest := s[..i], s[i + 1..];
      MarkerFreeParts(s, i);
      assert LastIndexOf(line, RedirectMarker).None?;
      StripRedirectPrefixWithoutMarker(rest);
      assert line + [s[i]] + rest == s;
  }

  /** The parts of a string without `?http` on either side of one of its
      characters hold none either. */
  lemma MarkerFreeParts(s: string, i: nat)
    requires !Contains(s, RedirectMarker)
    requires i < |s|
    ensures forall k :: !OccursAt(s[..i], RedirectMarker, k)
    ensures !Contains(s[i + 1..], RedirectMarker)
  {
    var line, rest := s[..i], s[i + 1..];
    forall k | OccursAt(line, RedirectMarker, k) ensures OccursAt(s, RedirectMarker, k) {
      assert s[k..k + 5] == line[k..k + 5];
    }
    forall k | OccursAt(rest, RedirectMarker, k) ensures OccursAt(s, RedirectMarker, k + i + 1) {
      assert s[k + i + 1..k + i + 6] == rest[k..k + 5];
    }
  }

  /** Nothing after the last `?http` can form another one behind `http`. */
  lemma NoMarkerAfterLast(s: string, k: nat)
    requires OccursAt(s, RedirectMarker, k)
    requires forall j :: k < j ==> !OccursAt(s, RedirectMarker, j)
    ensures !Contains("http" + s[k + 5..], RedirectMarker)
  {
    var r := "http" + s[k + 5..];
    forall j | 0 <= j <= |r| - 5
      ensures !OccursAt(r, RedirectMarker, j)
    {
      if j < 4 {
        assert r[j] != '?';
        assert r[j..j + 5][0] == r[j];
      } else {
        assert r[j..j + 5] == s[k + 1 + j..k + 6 + j];
        assert !OccursAt(s, RedirectMarker, k + 1 + j);
      }
    }
  }

  /** After the strip, a single line holds no `?http` any more. */
  lemma StripRedirectPrefixLeavesNoMarker(s: string)
    requires NoLineTerminators(s)
    ensures !Contains(StripRedirectPrefix(s), RedirectMarker)
  {
    assert FirstLineTerminator(s).None?;
    match LastIndexOf(s, RedirectMarker)
    case None =>
      assert StripRedirectPrefix(s) == s;
    case Some(k) =>
      NoMarkerAfterLast(s, k);
  }

  /** A run of `n` copies of `c`. */
  function Repeat(c: char, n: nat): (r: string)
    ensures |r| == n && forall i :: 0 <= i < n ==> r[i] == c
  {
    seq(n, _ => c)
  }

  /** Fewer than six underscores are copied through unchanged. */
  lemma {:induction false} ShortRunUnchanged(n: nat, t: string)
    requires n < 6
    requires t == [] || t[0] != '_'
    ensures ReplaceDotTokens(Repeat('_', n) + t) == Repeat('_', n) + ReplaceDotTokens(t)
    decreases n
  {
    if n > 0 {
      ShortRunStep(n, t);
      ShortRunUnchanged(n - 1, t);
      assert Repeat('_', n)[1..] == Repeat('_', n - 1);
      HeadThenTail(Repeat('_', n), ReplaceDotTokens(t));
    } else {
      assert Repeat('_', n) + t == t;
    }
  }

  /** A short run's first underscore is copied on its own. */
  lemma ShortRunStep(n: nat, t: string)
    requires 0 < n < 6
    requires t == [] || t[0] != '_'
    ensures ReplaceDotTokens(Repeat('_', n) + t) == ['_'] + ReplaceDotTokens(Repeat('_', n - 1) + t)
  {
    var s := Repeat('_', n) + t;
    assert !DotTokenAt(s) by {
      if |s| >= 6 { assert s[n] != '_'; }
    }
    assert s[0] == '_';
    assert s[1..] == Repeat('_', n - 1) + t;
  }

  /** A run of `n` underscores becomes `n / 6` dots followed by the
      `n % 6` underscores that are left over. */
  lemma {:induction false} DotTokenRun(n: nat, t: string)
    requires t == [] || t[0] != '_'
    ensures ReplaceDotTokens(Repeat('_', n) + t) == Repeat('.', n / 6) + Repeat('_', n % 6) + ReplaceDotTokens(t)
    decreases n
  {
    if n >= 6 {
      DotTokenRunStep(n, t);
      DotTokenRun(n - 6, t);
      RunAfterDot(n, ReplaceDotTokens(Repeat('_', n - 6) + t), ReplaceDotTokens(t));
    } else {
      ShortRunUnchanged(n, t);
    }
  }

  /** Six leading underscores are read as one dot. */
  lemma DotTokenRunStep(n: nat, t: string)
    requires n >= 6
    ensures ReplaceDotTokens(Repeat('_', n) + t) == "." + ReplaceDotTokens(Repeat('_', n - 6) + t)
  {
    var s := Repeat('_', n) + t;
    assert DotTokenAt(s);
    assert s[6..] == Repeat('_', n - 6) + t;
  }

  lemma RepeatStep(n: nat)
    requires n >= 6
    ensures Repeat('.', n / 6) == "." + Repeat('.', (n - 6) / 6) && (n - 6) % 6 == n % 6
  {
  }

  /** A dot in front of the decoding of `n - 6` underscores is the
      decoding of `n`. */
  lemma RunAfterDot(n: nat, shorter: string, tail: string)
    requires n >= 6
    requires shorter == Repeat('.', (n - 6) / 6) + Repeat('_', (n - 6) % 6) + tail
    ensures "." + shorter == Repeat('.', n / 6) + Repeat('_', n % 6) + tail
  {
    RepeatStep(n);
    var dots, rest := Repeat('.', (n - 6) / 6), Repeat('_', n % 6);
    assert "." + (dots + rest + tail) == "." + dots + rest + tail;
  }

  /** Twelve underscores decode to two dots, seven to a dot and an
      underscore. */
  lemma DotTokenExamples()
    ensures ReplaceDotTokens(Repeat('_', 12)) == ".."
    ensures ReplaceDotTokens(Repeat('_', 7)) == "._"
  {
    DotTokenRun(12, []);
    assert Repeat('_', 12) + [] == Repeat('_', 12);
    assert Repeat('.', 2) == "..";
    DotTokenRun(7, []);
    assert Repeat('_', 7) + [] == Repeat('_', 7);
    assert Repeat('.', 1) + Repeat('_', 1) == "._";
  }

  /** The redirector's obfuscation: every `.` written as six underscores. */
  function ObfuscateDots(t: string): string {
    if t == [] then []
    else ObfuscateChar(t[0]) + ObfuscateDots(t[1..])
  }

  /** How the obfuscation writes one character. */
  function ObfuscateChar(c: char): string {
    if c == '.' then DotToken else [c]
  }

  /** The substitution reads one obfuscated character back. */
  lemma ReplaceObfuscatedHead(c: char, rest: string)
    requires c != '_'
    ensures ReplaceDotTokens(ObfuscateChar(c) + rest) == [c] + ReplaceDotTokens(rest)
  {
    var s := ObfuscateChar(c) + rest;
    if c == '.' {
      assert DotTokenAt(s);
      assert s[6..] == rest;
    } else {
      assert !DotTokenAt(s);
      assert s[1..] == rest;
    }
  }

  lemma ObfuscateDotsStep(t: string, w: string)
    requires t != []
    ensures ObfuscateDots(t) + w == ObfuscateChar(t[0]) + (ObfuscateDots(t[1..]) + w)
  {
  }

  /** The token substitution undoes the obfuscation of any target that
      holds no underscore of its own, whatever follows it. */
  lemma {:induction false} DotTokenRoundTrip(t: string, w: string)
    requires forall i :: 0 <= i < |t| ==> t[i] != '_'
    requires w == [] || w[0] != '_'
    ensures ReplaceDotTokens(ObfuscateDots(t) + w) == t + ReplaceDotTokens(w)
  {
    if t == [] {
      assert ObfuscateDots(t) + w == w;
    } else {
      var tail := t[1..];
      assert forall i :: 0 <= i < |tail| ==> tail[i] == t[i + 1];
      var rest := ObfuscateDots(tail) + w;
      DotTokenRoundTrip(tail, w);
      ObfuscateDotsStep(t, w);
      ReplaceObfuscatedHead(t[0], rest);
      HeadThenTail(t, ReplaceDotTokens(w));
    }
  }

  /** A prefix without underscores passes the substitution unchanged. */
  lemma {:induction false} ReplaceDotTokensAfterPlainPrefix(x: string, y: string)
    requires forall i :: 0 <= i < |x| ==> x[i] != '_'
    ensures ReplaceDotTokens(x + y) == x + ReplaceDotTokens(y)
  {
    if x != [] {
      var s := x + y;
      assert s[0] == x[0];
      assert s[1..] == x[1..] + y;
      ReplaceDotTokensAfterPlainPrefix(x[1..], y);
      assert x == [x[0]] + x[1..];
    } else {
      assert x + y == y;
    }
  }

  /** The first `&z` goes, even when another one follows. */
  lemma RemoveFirstSuffixNotAnchored(x: string, y: string)
    requires !Contains(x, HtmlSuffix)
    ensures RemoveFirst(x + HtmlSuffix + y, HtmlSuffix) == x + y
  {
    var s := x + HtmlSuffix + y;
    assert OccursAt(s, HtmlSuffix, |x|);
    forall j | 0 <= j < |x| ensures !OccursAt(s, HtmlSuffix, j) {
      if j + 2 <= |x| {
        assert s[j..j + 2] == x[j..j + 2];
        assert !OccursAt(x, HtmlSuffix, j);
      } else {
        assert s[j + 1] == '&';
        assert s[j..j + 2][1] == s[j + 1];
      }
    }
    var k := FirstIndexOf(s, HtmlSuffix).value;
    assert k == |x|;
    RemoveFirstSound(s, HtmlSuffix);
    assert s[..k] == x && s[k + 2..] == y;
  }

  /** A target the unwrap gives back: it holds no underscore of its own
      (the substitution would read it with a token's), no line break, and
      neither the marker nor the suffix. Any other character, `?` and `&`
      of a query string included, may appear. */
  predicate PlainTarget(t: string) {
    (forall i :: 0 <= i < |t| ==> t[i] != '_' && !IsLineTerminator(t[i])) &&
    !Contains(t, RedirectMarker) && !Contains(t, HtmlSuffix)
  }

  /** The scheme the unwrap restores adds no suffix. */
  lemma PlainAfterScheme(t: string)
    requires PlainTarget(t)
    ensures !Contains("http" + t, HtmlSuffix)
  {
    var u := "http" + t;
    forall j | 0 <= j <= |u| - 2 ensures !OccursAt(u, HtmlSuffix, j) {
      if j < 4 {
        NotOccursAtHead(u, HtmlSuffix, j);
      } else {
        assert u[j..j + 2] == t[j - 4..j - 2];
        assert !OccursAt(t, HtmlSuffix, j - 4);
      }
    }
  }

  /** The marker has no `&`, so it cannot run into the suffix. */
  lemma NoMarkerBeforeSuffix(o: string)
    requires !Contains(o, RedirectMarker)
    ensures !Contains(o + HtmlSuffix, RedirectMarker)
  {
    var s := o + HtmlSuffix;
    forall k | 0 <= k <= |s| - 5 ensures !OccursAt(s, RedirectMarker, k) {
      if k + 5 <= |o| {
        assert s[k..k + 5] == o[k..k + 5];
        assert !OccursAt(o, RedirectMarker, k);
      } else {
        assert s[|o|] == '&';
        assert s[k..k + 5][|o| - k] == s[|o|];
      }
    }
  }

  /** Stripping a wrapped link leaves `http`, the obfuscated rest and the
      suffix. */
  lemma StripWrappedLink(p: string, o: string)
    requires NoLineTerminators(p) && NoLineTerminators(o)
    requires !Contains(o, RedirectMarker)
    ensures StripRedirectPrefix(p + RedirectMarker + o + HtmlSuffix) == "http" + o + HtmlSuffix
  {
    var rest := o + HtmlSuffix;
    var s := p + RedirectMarker + rest;
    assert s == p + RedirectMarker + o + HtmlSuffix;
    assert NoLineTerminators(RedirectMarker) && NoLineTerminators(HtmlSuffix);
    NoLineTerminatorsConcat(o, HtmlSuffix);
    NoLineTerminatorsConcat(p, RedirectMarker);
    NoLineTerminatorsConcat(p + RedirectMarker, rest);
    NoMarkerBeforeSuffix(o);
    assert s[|p|..|p| + 5] == RedirectMarker;
    MarkerIsLast(p, rest);
    StripRedirectPrefixOnOneLine(s, |p|);
    assert s[|p| + 5..] == rest;
  }

  /** Behind a marker followed by no other marker, none starts. */
  lemma MarkerIsLast(p: string, rest: string)
    requires !Contains(rest, RedirectMarker)
    ensures forall j :: |p| < j ==> !OccursAt(p + RedirectMarker + rest, RedirectMarker, j)
  {
    var s := p + RedirectMarker + rest;
    forall j | |p| < j
      ensures !OccursAt(s, RedirectMarker, j)
    {
      if j < |p| + 5 {
        if j < |s| { assert s[j] == RedirectMarker[j - |p|]; }
        NotOccursAtHead(s, RedirectMarker, j);
      } else if j + 5 <= |s| {
        assert s[j..j + 5] == rest[j - |p| - 5..j - |p|];
        assert !OccursAt(rest, RedirectMarker, j - |p| - 5);
      }
    }
  }

  lemma NoLineTerminatorsConcat(a: string, b: string)
    requires NoLineTerminators(a) && NoLineTerminators(b)
    ensures NoLineTerminators(a + b)
  {
    forall i | 0 <= i < |a + b| ensures !IsLineTerminator((a + b)[i]) {
      if i < |a| { assert (a + b)[i] == a[i]; } else { assert (a + b)[i] == b[i - |a|]; }
    }
  }

  /** The unwrap reverses the redirector's scheme: a target `http` + `t`
      wrapped as `p?` + obfuscated target + `&z` comes back as it was. */
  lemma KillRedircdnRoundTrip(p: string, t: string)
    requires NoLineTerminators(p)
    requires PlainTarget(t)
    ensures KillRedircdn(p + RedirectMarker + ObfuscateDots(t) + HtmlSuffix) == "http" + t
  {
    var o := ObfuscateDots(t);
    ObfuscatedIsPlain(t);
    StripWrappedLink(p, o);
    assert "http" + o + HtmlSuffix == "http" + (o + HtmlSuffix);
    DecodeWrapped(t);
    UnwrapSuffix(t);
  }

  /** Why a target may hold no underscore: in `a_.b` the underscore joins
      the six written for the dot, and the seven are read back as a dot
      followed by an underscore. */
  lemma UnderscoreBeforeDotMoves()
    ensures ReplaceDotTokens(ObfuscateDots("a_.b")) == "a._b"
  {
    assert ObfuscateDots("a_.b") == "a" + (Repeat('_', 7) + "b");
    ReplaceDotTokensAfterPlainPrefix("a", Repeat('_', 7) + "b");
    DotTokenRun(7, "b");
    ReplaceDotTokensAfterPlainPrefix("b", []);
    assert "b" + [] == "b";
    assert Repeat('.', 1) + Repeat('_', 1) == "._";
  }

  /** After the strip, the substitution restores the target's dots. */
  lemma DecodeWrapped(t: string)
    requires PlainTarget(t)
    ensures ReplaceDotTokens("http" + (ObfuscateDots(t) + HtmlSuffix)) == "http" + t + HtmlSuffix
  {
    var o := ObfuscateDots(t);
    SuffixSurvivesSubstitution([], []);
    assert [] + HtmlSuffix + [] == HtmlSuffix;
    assert forall i :: 0 <= i < 4 ==> "http"[i] != '_';
    ReplaceDotTokensAfterPlainPrefix("http", o + HtmlSuffix);
    DotTokenRoundTrip(t, HtmlSuffix);
    assert "http" + (t + HtmlSuffix) == "http" + t + HtmlSuffix;
  }

  /** The final `replace('&z', '')` drops the suffix. */
  lemma UnwrapSuffix(t: string)
    requires PlainTarget(t)
    ensures RemoveFirst("http" + t + HtmlSuffix, HtmlSuffix) == "http" + t
  {
    PlainAfterScheme(t);
    RemoveFirstSuffixNotAnchored("http" + t, []);
    assert "http" + t + HtmlSuffix + [] == "http" + t + HtmlSuffix;
    assert "http" + t + [] == "http" + t;
  }

  /** A token that does not start within `x` does not start there once
      something beginning with another character than `_` follows `x`. */
  lemma NoTokenAcross(x: string, y: string)
    requires !DotTokenAt(x) && (y == [] || y[0] != '_')
    ensures !DotTokenAt(x + y)
  {
    var s := x + y;
    if |x| >= 6 {
      assert s[..6] == x[..6];
    } else if y != [] && |s| >= 6 {
      assert s[|x|] == y[0];
    }
  }

  /** No token is read across a character other than `_`: the two sides
      of such a character are decoded on their own. */
  lemma {:induction false} ReplaceDotTokensSplit(x: string, y: string)
    requires y == [] || y[0] != '_'
    ensures ReplaceDotTokens(x + y) == ReplaceDotTokens(x) + ReplaceDotTokens(y)
    decreases |x|
  {
    var s := x + y;
    if x == [] {
      assert s == y;
    } else if DotTokenAt(x) {
      assert s[..6] == x[..6];
      assert DotTokenAt(s);
      assert s[6..] == x[6..] + y;
      ReplaceDotTokensSplit(x[6..], y);
      var left, right := ReplaceDotTokens(x[6..]), ReplaceDotTokens(y);
      assert ReplaceDotTokens(s) == "." + (left + right);
      assert "." + (left + right) == "." + left + right;
    } else {
      NoTokenAcross(x, y);
      assert s[1..] == x[1..] + y;
      ReplaceDotTokensSplit(x[1..], y);
      var left, right := ReplaceDotTokens(x[1..]), ReplaceDotTokens(y);
      assert s[0] == x[0];
      assert ReplaceDotTokens(s) == [x[0]] + (left + right);
      assert [x[0]] + (left + right) == [x[0]] + left + right;
    }
  }

  /** The substitution leaves the `&z` suffix alone wherever it stands, and
      decodes what comes before and after it separately. */
  lemma SuffixSurvivesSubstitution(x: string, y: string)
    ensures ReplaceDotTokens(x + HtmlSuffix + y) == ReplaceDotTokens(x) + HtmlSuffix + ReplaceDotTokens(y)
  {
    var rest := HtmlSuffix + y;
    assert x + HtmlSuffix + y == x + rest;
    ReplaceDotTokensSplit(x, rest);
    ReplaceDotTokensAfterPlainPrefix(HtmlSuffix, y);
  }

  /** Obfuscation adds no line break. */
  lemma {:induction false} ObfuscatedHasNoLineTerminators(t: string)
    requires NoLineTerminators(t)
    ensures NoLineTerminators(ObfuscateDots(t))
  {
    if t != [] {
      ObfuscatedHasNoLineTerminators(t[1..]);
    }
  }

  /** An obfuscated text starts with an underscore-free string only when
      the text itself does. */
  lemma {:induction false} ObfuscatedPrefix(u: string, v: string)
    requires forall i :: 0 <= i < |v| ==> v[i] != '_'
    requires StartsWith(ObfuscateDots(u), v)
    ensures StartsWith(u, v)
    decreases |v|
  {
    if v != [] {
      assert ObfuscateDots(u) != [];
      var o := ObfuscateDots(u);
      assert o == ObfuscateChar(u[0]) + ObfuscateDots(u[1..]);
      assert o[0] == v[0];
      if u[0] == '.' {
        assert false;
      } else {
        assert o[1..] == ObfuscateDots(u[1..]);
        assert o[1..][..|v| - 1] == v[1..];
        ObfuscatedPrefix(u[1..], v[1..]);
        assert u == [u[0]] + u[1..];
      }
    }
  }

  /** Obfuscation makes no underscore-free pattern appear. */
  lemma {:induction false} ObfuscatedAbsent(t: string, w: string)
    requires w != [] && forall i :: 0 <= i < |w| ==> w[i] != '_'
    requires !Contains(t, w)
    ensures !Contains(ObfuscateDots(t), w)
  {
    if t != [] {
      AbsentFromTail(t, w);
      ObfuscatedAbsent(t[1..], w);
      var o := ObfuscateDots(t);
      var head := ObfuscateChar(t[0]);
      var r := ObfuscateDots(t[1..]);
      assert o == head + r;
      forall k | 0 <= k <= |o| - |w| ensures !OccursAt(o, w, k) {
        if k >= |head| {
          if OccursAt(o, w, k) {
            OccursAfterPrefix(head, r, w, k);
          }
        } else if t[0] == '.' {
          assert o[k] == '_';
          NotOccursAtHead(o, w, k);
        } else if OccursAt(o, w, 0) {
          ObfuscatedPrefix(t, w);
          assert OccursAt(t, w, 0);
        }
      }
    }
  }

  /** Obfuscating a plain target adds neither a line break, nor the marker,
      nor the suffix. */
  lemma ObfuscatedIsPlain(t: string)
    requires PlainTarget(t)
    ensures NoLineTerminators(ObfuscateDots(t))
    ensures !Contains(ObfuscateDots(t), RedirectMarker) && !Contains(ObfuscateDots(t), HtmlSuffix)
  {
    ObfuscatedHasNoLineTerminators(t);
    ObfuscatedAbsent(t, RedirectMarker);
    ObfuscatedAbsent(t, HtmlSuffix);
  }

  // ---------------------------------------------------------------------
  // removeInvalidChars
  // ---------------------------------------------------------------------

  /** What `removeInvalidChars` may receive: cheerio's `.html()` yields a
      string, or `null` for an empty selection. */
  datatype JsValue = Str(text: string) | Null | Undefined

  /** `[\u0000-\u0008\u000B\u000C\u000E-\u001F]`: the C0 controls other
      than tab, line feed and carriage return. */
  predicate IsInvalidControl(c: char) {
    (0 <= c as int <= 0x8) || c as int == 0xB || c as int == 0xC || (0xE <= c as int <= 0x1F)
  }

  /** U+202E RIGHT-TO-LEFT OVERRIDE. */
  const RightToLeftOverride: char := '\U{202E}'

  predicate IsHexDigit(c: char) {
    ('0' <= c <= '9') || ('A' <= c <= 'F') || ('a' <= c <= 'f')
  }

  /** `/&#x1[0-9A-Fa-f];/` matches at the head of `s`. */
  predicate ControlEntityAt(s: string) {
    |s| >= 6 && s[0] == '&' && s[1] == '#' && s[2] == 'x' && s[3] == '1' && IsHexDigit(s[4]) && s[5] == ';'
  }

  /** The characters such an entity is made of. */
  predicate IsEntityChar(c: char) {
    c == '&' || c == '#' || c == 'x' || c == ';' || IsHexDigit(c)
  }

  predicate NoInvalidControls(s: string) {
    forall i :: 0 <= i < |s| ==> !IsInvalidControl(s[i])
  }

  predicate NoRightToLeftOverride(s: string) {
    forall i :: 0 <= i < |s| ==> s[i] != RightToLeftOverride
  }

  /** First pass: `replaceAll(/[\u0000-\u0008\u000B\u000C\u000E-\u001F]/g, '')`. */
  function StripControls(s: string): string {
    if s == [] then []
    else (if IsInvalidControl(s[0]) then [] else [s[0]]) + StripControls(s[1..])
  }

  /** Second pass: `replaceAll(/&#x1[0-9A-Fa-f];/g, '')`, scanning left to
      right and resuming after each deleted entity. */
  function StripControlEntities(s: string): string
    decreases |s|
  {
    if ControlEntityAt(s) then StripControlEntities(s[6..])
    else if s == [] then []
    else [s[0]] + StripControlEntities(s[1..])
  }

  /** Third pass: `replaceAll('\u202E', '')`. */
  function StripRightToLeftOverride(s: string): string {
    if s == [] then []
    else (if s[0] == RightToLeftOverride then [] else [s[0]]) + StripRightToLeftOverride(s[1..])
  }

  /** The first pass deletes every invalid control character and nothing
      else. */
  lemma StripControlsSound(s: string)
    ensures IsSubsequence(StripControls(s), s)
    ensures NoInvalidControls(StripControls(s))
    ensures forall c :: !IsInvalidControl(c) ==> multiset(StripControls(s))[c] == multiset(s)[c]
  {
    StripControlsSubsequence(s);
    StripControlsClean(s);
    StripControlsCounts(s);
  }

  lemma {:induction false} StripControlsSubsequence(s: string)
    ensures IsSubsequence(StripControls(s), s)
  {
    if s != [] {
      var t := StripControls(s[1..]);
      StripControlsSubsequence(s[1..]);
      SubsequenceCons(t, s[1..], s[0]);
      if !IsInvalidControl(s[0]) {
        SubsequenceBothCons(t, s[1..], s[0]);
      } else {
        assert StripControls(s) == t;
      }
      assert [s[0]] + s[1..] == s;
    }
  }

  lemma {:induction false} StripControlsClean(s: string)
    ensures NoInvalidControls(StripControls(s))
  {
    if s != [] {
      StripControlsClean(s[1..]);
    }
  }

  lemma {:induction false} StripControlsCounts(s: string)
    ensures forall c :: !IsInvalidControl(c) ==> multiset(StripControls(s))[c] == multiset(s)[c]
  {
    if s != [] {
      StripControlsCounts(s[1..]);
      assert [s[0]] + s[1..] == s;
    }
  }

  /** Deleting an entity at the head of `s` changes the count of no other
      character. */
  lemma EntityCharsOnly(s: string)
    requires ControlEntityAt(s)
    ensures forall c :: !IsEntityChar(c) ==> multiset(s)[c] == multiset(s[6..])[c]
  {
    var h := s[..6];
    assert s == h + s[6..];
    assert h == [s[0]] + [s[1]] + [s[2]] + [s[3]] + [s[4]] + [s[5]];
    forall c | !IsEntityChar(c) ensures multiset(h)[c] == 0 {
      assert c != s[0] && c != s[1] && c != s[2] && c != s[3] && c != s[4] && c != s[5];
    }
  }

  /** The second pass deletes whole six-character entities only. */
  lemma StripControlEntitiesSound(s: string)
    ensures IsSubsequence(StripControlEntities(s), s)
    ensures forall c :: !IsEntityChar(c) ==> multiset(StripControlEntities(s))[c] == multiset(s)[c]
  {
    StripControlEntitiesSubsequence(s);
    StripControlEntitiesCounts(s);
  }

  lemma {:induction false} StripControlEntitiesSubsequence(s: string)
    ensures IsSubsequence(StripControlEntities(s), s)
    decreases |s|
  {
    if ControlEntityAt(s) {
      StripControlEntitiesSubsequence(s[6..]);
      SubsequenceOfSuffix(StripControlEntities(s[6..]), s, 6);
    } else if s != [] {
      var t := StripControlEntities(s[1..]);
      StripControlEntitiesSubsequence(s[1..]);
      SubsequenceBothCons(t, s[1..], s[0]);
      assert [s[0]] + s[1..] == s;
    }
  }

  lemma {:induction false} StripControlEntitiesCounts(s: string)
    ensures forall c :: !IsEntityChar(c) ==> multiset(StripControlEntities(s))[c] == multiset(s)[c]
    decreases |s|
  {
    if ControlEntityAt(s) {
      StripControlEntitiesCounts(s[6..]);
      EntityCharsOnly(s);
    } else if s != [] {
      var t := StripControlEntities(s[1..]);
      StripControlEntitiesCounts(s[1..]);
      assert [s[0]] + s[1..] == s;
      assert multiset([s[0]] + t) == multiset([s[0]]) + multiset(t);
    }
  }

  /** The number of positions of `s` at which a control entity starts. */
  function EntityCount(s: string): nat {
    if s == [] then 0
    else (if ControlEntityAt(s) then 1 else 0) + EntityCount(s[1..])
  }

  /** No control entity starts anywhere in `s`. */
  predicate NoControlEntity(s: string) {
    forall i :: 0 <= i <= |s| ==> !ControlEntityAt(s[i..])
  }

  /** Where no `&` stands, no entity starts. */
  lemma {:induction false} EntityCountSkip(s: string, k: nat)
    requires k <= |s|
    requires forall i :: 0 <= i < k ==> s[i] != '&'
    ensures EntityCount(s) == EntityCount(s[k..])
    decreases k
  {
    if k > 0 {
      assert !ControlEntityAt(s);
      assert s[1..][k - 1..] == s[k..];
      EntityCountSkip(s[1..], k - 1);
    }
  }

  /** Two entities never overlap: inside one, only its own `&` can start
      another. */
  lemma EntityCountAtEntity(s: string)
    requires ControlEntityAt(s)
    ensures EntityCount(s) == 1 + EntityCount(s[6..])
  {
    EntityCountSkip(s[1..], 5);
    assert s[1..][5..] == s[6..];
  }

  /** The second pass deletes six characters for every entity that occurs
      in its input, and no more: each occurrence goes. */
  lemma {:induction false} StripControlEntitiesLength(s: string)
    ensures |StripControlEntities(s)| == |s| - 6 * EntityCount(s)
    decreases |s|
  {
    if ControlEntityAt(s) {
      StripControlEntitiesLength(s[6..]);
      EntityCountAtEntity(s);
    } else if s != [] {
      StripControlEntitiesLength(s[1..]);
    }
  }

  /** An entity at any position is counted. */
  lemma {:induction false} EntityCountPositive(s: string, i: nat)
    requires i <= |s| && ControlEntityAt(s[i..])
    ensures EntityCount(s) > 0
    decreases i
  {
    if i > 0 && !ControlEntityAt(s) {
      assert s[1..][i - 1..] == s[i..];
      EntityCountPositive(s[1..], i - 1);
    }
  }

  /** Text in which no entity starts passes the second pass unchanged. */
  lemma {:induction false} StripControlEntitiesKeepsEntityFree(s: string)
    requires NoControlEntity(s)
    ensures StripControlEntities(s) == s
    decreases |s|
  {
    if s != [] {
      assert !ControlEntityAt(s[0..]) && s[0..] == s;
      forall i | 0 <= i <= |s[1..]| ensures !ControlEntityAt(s[1..][i..]) {
        assert s[1..][i..] == s[i + 1..];
      }
      StripControlEntitiesKeepsEntityFree(s[1..]);
      assert [s[0]] + s[1..] == s;
    }
  }

  /** The second pass changes its input exactly when an entity occurs in
      it. */
  lemma StripControlEntitiesFixedPoints(s: string)
    ensures StripControlEntities(s) == s <==> NoControlEntity(s)
  {
    if NoControlEntity(s) {
      StripControlEntitiesKeepsEntityFree(s);
    } else {
      var i :| 0 <= i <= |s| && ControlEntityAt(s[i..]);
      EntityCountPositive(s, i);
      StripControlEntitiesLength(s);
    }
  }

  /** The third pass deletes every override and nothing else. */
  lemma StripRightToLeftOverrideSound(s: string)
    ensures IsSubsequence(StripRightToLeftOverride(s), s)
    ensures NoRightToLeftOverride(StripRightToLeftOverride(s))
    ensures forall c :: c != RightToLeftOverride ==>
              multiset(StripRightToLeftOverride(s))[c] == multiset(s)[c]
  {
    StripRightToLeftOverrideSubsequence(s);
    StripRightToLeftOverrideClean(s);
    StripRightToLeftOverrideCounts(s);
  }

  lemma {:induction false} StripRightToLeftOverrideSubsequence(s: string)
    ensures IsSubsequence(StripRightToLeftOverride(s), s)
  {
    if s != [] {
      var t := StripRightToLeftOverride(s[1..]);
      StripRightToLeftOverrideSubsequence(s[1..]);
      SubsequenceCons(t, s[1..], s[0]);
      if s[0] != RightToLeftOverride {
        SubsequenceBothCons(t, s[1..], s[0]);
      } else {
        assert StripRightToLeftOverride(s) == t;
      }
      assert [s[0]] + s[1..] == s;
    }
  }

  lemma {:induction false} StripRightToLeftOverrideClean(s: string)
    ensures NoRightToLeftOverride(StripRightToLeftOverride(s))
  {
    if s != [] {
      StripRightToLeftOverrideClean(s[1..]);
    }
  }

  lemma {:induction false} StripRightToLeftOverrideCounts(s: string)
    ensures forall c :: c != RightToLeftOverride ==>
              multiset(StripRightToLeftOverride(s))[c] == multiset(s)[c]
  {
    if s != [] {
      StripRightToLeftOverrideCounts(s[1..]);
      assert [s[0]] + s[1..] == s;
    }
  }

  /** The three passes, each run once, in the source's order. */
  function Sanitize(s: string): string {
    StripRightToLeftOverride(StripControlEntities(StripControls(s)))
  }

  /** What the three passes leave: a subsequence of the input without
      invalid controls and overrides, in which every character that is
      neither of these nor part of an entity occurs as often as before. */
  lemma SanitizeSound(s: string)
    ensures IsSubsequence(Sanitize(s), s)
    ensures NoInvalidControls(Sanitize(s)) && NoRightToLeftOverride(Sanitize(s))
    ensures forall c :: !IsInvalidControl(c) && !IsEntityChar(c) && c != RightToLeftOverride ==>
              multiset(Sanitize(s))[c] == multiset(s)[c]
  {
    var a := StripControls(s);
    var b := StripControlEntities(a);
    var c := StripRightToLeftOverride(b);
    StripControlsSound(s);
    StripControlEntitiesSound(a);
    StripRightToLeftOverrideSound(b);
    SubsequenceTransitive(b, a, s);
    SubsequenceTransitive(c, b, s);
    SubsequenceTransitive(c, b, a);
    SubsequenceElements(c, a);
    forall ch | !IsInvalidControl(ch) && !IsEntityChar(ch) && ch != RightToLeftOverride
      ensures multiset(c)[ch] == multiset(s)[ch]
    {
      assert multiset(c)[ch] == multiset(b)[ch] == multiset(a)[ch];
    }
  }

  /** `removeInvalidChars(str)`: a non-string is returned as it is; a string
      goes through the three passes once each. A string comes back as it
      was exactly when it holds nothing the passes delete. */
  function RemoveInvalidChars(v: JsValue): (r: JsValue)
    ensures !v.Str? ==> r == v
    ensures v.Str? ==> r.Str? && IsSubsequence(r.text, v.text)
    ensures v.Str? ==> NoInvalidControls(r.text) && NoRightToLeftOverride(r.text)
    ensures v.Str? ==> forall c :: !IsInvalidControl(c) && !IsEntityChar(c) && c != RightToLeftOverride ==>
              multiset(r.text)[c] == multiset(v.text)[c]
    ensures v.Str? ==> (r == v <==>
              NoInvalidControls(v.text) && NoRightToLeftOverride(v.text) && NoControlEntity(v.text))
  {
    match v
    case Str(s) =>
      SanitizeSound(s);
      SanitizeFixedPoints(s);
      Str(Sanitize(s))
    case _ => v
  }

  /** The third pass never lengthens its input. */
  lemma {:induction false} StripRightToLeftOverrideLength(s: string)
    ensures |StripRightToLeftOverride(s)| <= |s|
  {
    if s != [] {
      StripRightToLeftOverrideLength(s[1..]);
    }
  }

  /** A count of zero means no entity occurs. */
  lemma NoEntityCounted(s: string)
    requires EntityCount(s) == 0
    ensures NoControlEntity(s)
  {
    forall i | 0 <= i <= |s| ensures !ControlEntityAt(s[i..]) {
      if ControlEntityAt(s[i..]) {
        EntityCountPositive(s, i);
      }
    }
  }

  /** The three passes leave a string unchanged exactly when it holds no
      invalid control, no override and no control entity. */
  lemma SanitizeFixedPoints(s: string)
    ensures Sanitize(s) == s <==> NoInvalidControls(s) && NoRightToLeftOverride(s) && NoControlEntity(s)
  {
    if NoInvalidControls(s) && NoRightToLeftOverride(s) && NoControlEntity(s) {
      StripControlsKeepsValid(s);
      StripControlEntitiesKeepsEntityFree(s);
      StripRightToLeftOverrideKeepsOthers(s);
    }
    if Sanitize(s) == s {
      SanitizeSound(s);
      StripControlsKeepsValid(s);
      var b := StripControlEntities(s);
      StripRightToLeftOverrideLength(b);
      StripControlEntitiesLength(s);
      NoEntityCounted(s);
    }
  }

  /** An entity at the head is deleted and scanning resumes after it. */
  lemma ControlEntityDeleted(e: string, t: string)
    requires |e| == 6 && ControlEntityAt(e)
    ensures StripControlEntities(e + t) == StripControlEntities(t)
  {
    assert ControlEntityAt(e + t);
    assert (e + t)[6..] == t;
  }

  /** Text without `&` holds no entity and is copied through. */
  lemma {:induction false} AmpersandFreeKept(x: string, t: string)
    requires forall i :: 0 <= i < |x| ==> x[i] != '&'
    ensures StripControlEntities(x + t) == x + StripControlEntities(t)
  {
    if x == [] {
      assert x + t == t;
    } else {
      var s := x + t;
      assert s[0] == x[0] && !ControlEntityAt(s);
      assert s[1..] == x[1..] + t;
      AmpersandFreeKept(x[1..], t);
      calc {
        StripControlEntities(s);
        [s[0]] + StripControlEntities(s[1..]);
        [x[0]] + (x[1..] + StripControlEntities(t));
        { assert x == [x[0]] + x[1..]; }
        x + StripControlEntities(t);
      }
    }
  }

  /** A string with no invalid control is left alone by the first pass. */
  lemma {:induction false} StripControlsKeepsValid(s: string)
    requires NoInvalidControls(s)
    ensures StripControls(s) == s
  {
    if s != [] {
      StripControlsKeepsValid(s[1..]);
      assert s == [s[0]] + s[1..];
    }
  }

  /** A string with no right-to-left override is left alone by the third
      pass. */
  lemma {:induction false} StripRightToLeftOverrideKeepsOthers(s: string)
    requires NoRightToLeftOverride(s)
    ensures StripRightToLeftOverride(s) == s
  {
    if s != [] {
      StripRightToLeftOverrideKeepsOthers(s[1..]);
      assert s == [s[0]] + s[1..];
    }
  }

  /** A control entity written with a capital `X` is not one the second
      pass recognises, and survives. */
  lemma RemoveInvalidCharsKeepsCapitalX()
    ensures RemoveInvalidChars(Str("&#X1F;")) == Str("&#X1F;")
  {
    ShortTextKept("&#X1F;");
  }

  /** Named entities such as `&amp;` survive. */
  lemma RemoveInvalidCharsKeepsNamedEntity()
    ensures RemoveInvalidChars(Str("&amp;")) == Str("&amp;")
  {
    ShortTextKept("&amp;");
  }

  /** A printable character written as an entity, such as the space
      `&#x20;`, survives. */
  lemma RemoveInvalidCharsKeepsPrintableEntity()
    ensures RemoveInvalidChars(Str("&#x20;")) == Str("&#x20;")
  {
    ShortTextKept("&#x20;");
  }

  /** In at most six characters an entity can start only at the head, so
      such text without controls and overrides is kept unless it is a
      control entity itself. */
  lemma ShortTextKept(s: string)
    requires |s| <= 6 && !ControlEntityAt(s)
    requires NoInvalidControls(s) && NoRightToLeftOverride(s)
    ensures RemoveInvalidChars(Str(s)) == Str(s)
  {
    assert s[0..] == s;
    assert NoControlEntity(s);
  }

  /** A bell and an override vanish from `a\u0007b\u202Ec`. */
  lemma RemoveInvalidCharsExample()
    ensures RemoveInvalidChars(Str("a\U{7}b\U{202E}c")) == Str("abc")
  {
    ExampleFirstPass();
    AmpersandFreeKept("ab\U{202E}c", []);
    assert "ab\U{202E}c" + [] == "ab\U{202E}c";
    ExampleThirdPass();
  }

  lemma ExampleFirstPass()
    ensures StripControls("a\U{7}b\U{202E}c") == "ab\U{202E}c"
  {
    assert StripControls("c") == "c";
    assert StripControls("\U{202E}c") == "\U{202E}c";
    assert StripControls("b\U{202E}c") == "b\U{202E}c";
    assert StripControls("\U{7}b\U{202E}c") == "b\U{202E}c";
  }

  lemma ExampleThirdPass()
    ensures StripRightToLeftOverride("ab\U{202E}c") == "abc"
  {
    assert StripRightToLeftOverride("c") == "c";
    assert StripRightToLeftOverride("\U{202E}c") == "c";
    assert StripRightToLeftOverride("b\U{202E}c") == "bc";
  }

  /** A whole control entity: `&#x1`, a hex digit and `;`. */
  predicate IsControlEntity(e: string) {
    |e| == 6 && ControlEntityAt(e)
  }

  /** The entity with U+202E written after its `&#x`, as in
      `&#x\u202E1F;`. */
  function HideEntity(e: string): string
    requires |e| >= 3
  {
    e[..3] + [RightToLeftOverride] + e[3..]
  }

  /** The third pass works on the parts of a concatenation separately. */
  lemma {:induction false} StripRightToLeftOverrideConcat(a: string, b: string)
    ensures StripRightToLeftOverride(a + b) == StripRightToLeftOverride(a) + StripRightToLeftOverride(b)
  {
    if a == [] {
      assert a + b == b;
    } else {
      assert (a + b)[0] == a[0];
      assert (a + b)[1..] == a[1..] + b;
      StripRightToLeftOverrideConcat(a[1..], b);
      var h := if a[0] == RightToLeftOverride then [] else [a[0]];
      var x, y := StripRightToLeftOverride(a[1..]), StripRightToLeftOverride(b);
      assert h + (x + y) == (h + x) + y;
    }
  }

  /** The first pass finds no control character in a hidden entity. */
  lemma HiddenEntityFirstPass(e: string)
    requires IsControlEntity(e)
    ensures StripControls(HideEntity(e)) == HideEntity(e)
  {
    var w := HideEntity(e);
    forall i | 0 <= i < |w| ensures !IsInvalidControl(w[i]) {
      if i < 3 { assert w[i] == e[i]; } else if i > 3 { assert w[i] == e[i - 1]; }
    }
    StripControlsKeepsValid(w);
  }

  /** The override keeps the second pass from seeing the entity. */
  lemma HiddenEntitySecondPass(e: string)
    requires IsControlEntity(e)
    ensures StripControlEntities(HideEntity(e)) == HideEntity(e)
  {
    var w := HideEntity(e);
    assert w[0] == '&' && w[3] == RightToLeftOverride;
    var tail := w[1..];
    forall i | 0 <= i < |tail| ensures tail[i] != '&' {
      assert tail[i] == w[i + 1];
      if i < 2 { assert w[i + 1] == e[i + 1]; } else if i > 2 { assert w[i + 1] == e[i]; }
    }
    AmpersandFreeKept(tail, []);
    assert tail + [] == tail;
    assert [w[0]] + w[1..] == w;
  }

  /** The third pass deletes the override and so assembles the entity. */
  lemma HiddenEntityThirdPass(e: string)
    requires IsControlEntity(e)
    ensures StripRightToLeftOverride(HideEntity(e)) == e
  {
    var a, b := e[..3], e[3..];
    StripRightToLeftOverrideConcat(a + [RightToLeftOverride], b);
    StripRightToLeftOverrideConcat(a, [RightToLeftOverride]);
    assert NoRightToLeftOverride(e);
    NoOverrideInSlices(e, 3);
    StripRightToLeftOverrideKeepsOthers(a);
    StripRightToLeftOverrideKeepsOthers(b);
    assert e[..3] + e[3..] == e;
  }

  lemma NoOverrideInSlices(s: string, k: nat)
    requires NoRightToLeftOverride(s) && k <= |s|
    ensures NoRightToLeftOverride(s[..k]) && NoRightToLeftOverride(s[k..])
  {
    assert forall i :: 0 <= i < |s[k..]| ==> s[k..][i] == s[i + k];
  }

  /** The three passes turn a hidden entity into a visible one. */
  lemma HiddenEntitySurfaces(e: string)
    requires IsControlEntity(e)
    ensures Sanitize(HideEntity(e)) == e
  {
    HiddenEntityFirstPass(e);
    HiddenEntitySecondPass(e);
    HiddenEntityThirdPass(e);
  }

  /** A visible entity is deleted whole. */
  lemma VisibleEntityDeleted(e: string)
    requires IsControlEntity(e)
    ensures Sanitize(e) == []
  {
    assert NoInvalidControls(e);
    StripControlsKeepsValid(e);
    ControlEntityDeleted(e, []);
    assert e + [] == e;
  }

  /** Each pass runs once, so the function is not idempotent: an override
      inside an entity hides it from the second pass, and the third pass
      then assembles it; `&#x\u202E1F;` is one such input. */
  lemma RemoveInvalidCharsNotIdempotent(e: string)
    requires IsControlEntity(e)
    ensures RemoveInvalidChars(Str(HideEntity(e))) == Str(e)
    ensures RemoveInvalidChars(RemoveInvalidChars(Str(HideEntity(e)))) == Str([])
  {
    HiddenEntitySurfaces(e);
    VisibleEntityDeleted(e);
  }

  // ---------------------------------------------------------------------
  // parseContent
  // ---------------------------------------------------------------------

  /** A parsed page as cheerio holds it: elements with their attributes and
      children, and text. */
  datatype Node =
    | Element(name: string, attribs: map<string, string>, children: seq<Node>)
    | Text(data: string)

  /** The whitespace that separates the tokens of a `class` attribute. */
  predicate IsClassSeparator(c: char) {
    c == ' ' || c == '\t' || c == '\n' || c == '\r' || c == '\U{C}'
  }

  /** `cls` stands as a whole token at position `i` of a class list. */
  predicate ClassTokenAt(classList: string, cls: string, i: int) {
    OccursAt(classList, cls, i) &&
    (i == 0 || IsClassSeparator(classList[i - 1])) &&
    (i + |cls| == |classList| || IsClassSeparator(classList[i + |cls|]))
  }

  /** The element matches the class selector `.cls`. */
  predicate HasClass(attribs: map<string, string>, cls: string) {
    cls != [] && "class" in attribs &&
    exists i :: 0 <= i <= |attribs["class"]| - |cls| && ClassTokenAt(attribs["class"], cls, i)
  }

  /** An element and its attributes, without its children. */
  datatype Tag = Tag(name: string, attribs: map<string, string>)

  /** The selector `div.tpc_content`. */
  predicate IsPostContent(t: Tag) {
    t.name == "div" && HasClass(t.attribs, "tpc_content")
  }

  /** The elements of a forest in document order (preorder). */
  function Tags(nodes: seq<Node>): seq<Tag>
    decreases nodes
  {
    if nodes == [] then []
    else match nodes[0]
      case Text(_) => Tags(nodes[1..])
      case Element(name, attribs, children) => [Tag(name, attribs)] + Tags(children) + Tags(nodes[1..])
  }

  /** `$('div.tpc_content').eq(0)`: the first matching element in document
      order, children included. */
  function FirstPostContent(nodes: seq<Node>): (r: Option<Node>)
    ensures r.Some? ==> r.value.Element?
    decreases nodes
  {
    if nodes == [] then None
    else match nodes[0]
      case Text(_) => FirstPostContent(nodes[1..])
      case Element(name, attribs, children) =>
        if IsPostContent(Tag(name, attribs)) then Some(nodes[0])
        else match FirstPostContent(children)
          case Some(n) => Some(n)
          case None => FirstPostContent(nodes[1..])
  }

  /** The element found is a `div.tpc_content`. */
  lemma {:induction false} FirstPostContentMatches(nodes: seq<Node>)
    ensures var r := FirstPostContent(nodes);
      r.Some? ==> IsPostContent(Tag(r.value.name, r.value.attribs))
    decreases nodes
  {
    if nodes != [] {
      FirstPostContentMatches(nodes[1..]);
      if nodes[0].Element? {
        FirstPostContentMatches(nodes[0].children);
      }
    }
  }

  /** The index of the first `true` in a list of flags. */
  function FirstTrue(bs: seq<bool>): Option<nat> {
    if bs == [] then None
    else if bs[0] then Some(0)
    else match FirstTrue(bs[1..])
      case None => None
      case Some(k) => Some(k + 1)
  }

  /** The index found holds the first `true`; none means there is none. */
  lemma {:induction false} FirstTrueSound(bs: seq<bool>)
    ensures var r := FirstTrue(bs);
      (r.Some? ==> r.value < |bs| && bs[r.value] && forall j :: 0 <= j < r.value ==> !bs[j]) &&
      (r.None? ==> forall j :: 0 <= j < |bs| ==> !bs[j])
  {
    if bs != [] && !bs[0] {
      FirstTrueSound(bs[1..]);
    }
  }

  /** The first `true` in `a + b` is the first in `a`, or else the first in
      `b` shifted past `a`. */
  lemma {:induction false} FirstTrueConcat(a: seq<bool>, b: seq<bool>)
    ensures FirstTrue(a + b) ==
              match FirstTrue(a)
              case Some(k) => Some(k)
              case None =>
                match FirstTrue(b)
                case None => None
                case Some(k) => Some(|a| + k)
  {
    if a != [] {
      assert (a + b)[0] == a[0];
      assert (a + b)[1..] == a[1..] + b;
      FirstTrueConcat(a[1..], b);
    } else {
      assert a + b == b;
    }
  }

  /** Which elements of a list match `div.tpc_content`. */
  function PostContentFlags(ts: seq<Tag>): (r: seq<bool>)
    ensures |r| == |ts| && forall i :: 0 <= i < |ts| ==> r[i] == IsPostContent(ts[i])
  {
    seq(|ts|, i requires 0 <= i < |ts| => IsPostContent(ts[i]))
  }

  /** The index of the first `div.tpc_content` in a list of elements. */
  function FirstPostContentIndex(ts: seq<Tag>): (r: Option<nat>)
    ensures r.Some? ==> r.value < |ts| && IsPostContent(ts[r.value])
    ensures r.Some? ==> forall j :: 0 <= j < r.value ==> !IsPostContent(ts[j])
    ensures r.None? ==> forall j :: 0 <= j < |ts| ==> !IsPostContent(ts[j])
  {
    FirstTrueSound(PostContentFlags(ts));
    FirstTrue(PostContentFlags(ts))
  }

  /** The first match in `a + b` is the first in `a`, or else the first in
      `b` shifted past `a`. */
  lemma FirstPostContentIndexConcat(a: seq<Tag>, b: seq<Tag>)
    ensures FirstPostContentIndex(a + b) ==
              match FirstPostContentIndex(a)
              case Some(k) => Some(k)
              case None =>
                match FirstPostContentIndex(b)
                case None => None
                case Some(k) => Some(|a| + k)
  {
    PostContentFlagsConcat(a, b);
    FirstTrueConcat(PostContentFlags(a), PostContentFlags(b));
  }

  lemma PostContentFlagsConcat(a: seq<Tag>, b: seq<Tag>)
    ensures PostContentFlags(a + b) == PostContentFlags(a) + PostContentFlags(b)
  {
    var l, r := PostContentFlags(a + b), PostContentFlags(a) + PostContentFlags(b);
    forall i | 0 <= i < |l| ensures l[i] == r[i] {
      if i < |a| { assert (a + b)[i] == a[i]; } else { assert (a + b)[i] == b[i - |a|]; }
    }
  }

  /** The first `div.tpc_content` in a list of elements. */
  function FirstPostContentTag(ts: seq<Tag>): Option<Tag> {
    match FirstPostContentIndex(ts)
    case None => None
    case Some(k) => Some(ts[k])
  }

  /** The first match in `a + b` is the first in `a`, if any, or else the
      first in `b`. */
  lemma FirstPostContentTagConcat(a: seq<Tag>, b: seq<Tag>)
    ensures FirstPostContentTag(a + b) ==
              if FirstPostContentTag(a).Some? then FirstPostContentTag(a) else FirstPostContentTag(b)
  {
    FirstPostContentIndexConcat(a, b);
    match FirstPostContentIndex(a)
    case Some(k) =>
      assert (a + b)[k] == a[k];
    case None =>
      match FirstPostContentIndex(b)
      case Some(k) =>
        assert (a + b)[|a| + k] == b[k];
      case None =>
  }

  /** A single element is its own first match, or there is none. */
  lemma FirstPostContentTagSingle(t: Tag)
    ensures FirstPostContentTag([t]) == if IsPostContent(t) then Some(t) else None
  {
    assert [t][0] == t;
  }

  /** The tag of an element found, if any. */
  function TagOf(found: Option<Node>): Option<Tag> {
    match found
    case Some(Element(name, attribs, _)) => Some(Tag(name, attribs))
    case _ => None
  }

  /** The search seen on tags alone: the tag of the element found is the
      first `div.tpc_content` tag in document order, and there is one
      exactly when such an element exists. */
  lemma {:induction false} FirstPostContentInDocumentOrder(nodes: seq<Node>)
    ensures FirstPostContentTag(Tags(nodes)) == TagOf(FirstPostContent(nodes))
    decreases nodes
  {
    if nodes != [] {
      FirstPostContentInDocumentOrder(nodes[1..]);
      if nodes[0].Element? {
        FirstPostContentInDocumentOrder(nodes[0].children);
        DocumentOrderStep(nodes);
      }
    }
  }

  /** An element comes before its children, and they before its later
      siblings. */
  lemma DocumentOrderStep(nodes: seq<Node>)
    requires nodes != [] && nodes[0].Element?
    requires FirstPostContentTag(Tags(nodes[0].children)) == TagOf(FirstPostContent(nodes[0].children))
    requires FirstPostContentTag(Tags(nodes[1..])) == TagOf(FirstPostContent(nodes[1..]))
    ensures FirstPostContentTag(Tags(nodes)) == TagOf(FirstPostContent(nodes))
  {
    var tag := Tag(nodes[0].name, nodes[0].attribs);
    var children, rest := Tags(nodes[0].children), Tags(nodes[1..]);
    assert Tags(nodes) == [tag] + children + rest;
    FirstPostContentTagSingle(tag);
    FirstPostContentTagConcat([tag] + children, rest);
    FirstPostContentTagConcat([tag], children);
  }

  /** The element nodes of a forest, each with its whole subtree, in
      document order (preorder). */
  function Elements(nodes: seq<Node>): (r: seq<Node>)
    ensures forall i :: 0 <= i < |r| ==> r[i].Element?
    decreases nodes
  {
    if nodes == [] then []
    else match nodes[0]
      case Text(_) => Elements(nodes[1..])
      case Element(_, _, children) => [nodes[0]] + Elements(children) + Elements(nodes[1..])
  }

  /** The node matches `div.tpc_content`. */
  predicate IsPostContentNode(n: Node) {
    n.Element? && IsPostContent(Tag(n.name, n.attribs))
  }

  /** The first matching node of a list: the one at the lowest index that
      matches, and none when no node matches. */
  function FirstMatch(ns: seq<Node>): (r: Option<Node>)
    ensures r.None? <==> forall i :: 0 <= i < |ns| ==> !IsPostContentNode(ns[i])
    ensures r.Some? ==> exists i :: 0 <= i < |ns| && ns[i] == r.value && IsPostContentNode(ns[i]) &&
                          forall j :: 0 <= j < i ==> !IsPostContentNode(ns[j])
  {
    if ns == [] then None
    else if IsPostContentNode(ns[0]) then Some(ns[0])
    else
      var r := FirstMatch(ns[1..]);
      assert forall i :: 1 <= i < |ns| ==> ns[i] == ns[1..][i - 1];
      r
  }

  /** The first match in `a + b` is the first in `a`, if any, or else the
      first in `b`. */
  lemma {:induction false} FirstMatchConcat(a: seq<Node>, b: seq<Node>)
    ensures FirstMatch(a + b) == if FirstMatch(a).Some? then FirstMatch(a) else FirstMatch(b)
  {
    if a != [] {
      assert (a + b)[0] == a[0];
      assert (a + b)[1..] == a[1..] + b;
      FirstMatchConcat(a[1..], b);
    } else {
      assert a + b == b;
    }
  }

  /** Only the first post is processed: `$('div.tpc_content').eq(0)` is,
      subtree and all, the first matching element of the page in document
      order, so no later post with the same tag can stand in for it. */
  lemma {:induction false} FirstPostContentIsFirstElement(nodes: seq<Node>)
    ensures FirstPostContent(nodes) == FirstMatch(Elements(nodes))
    decreases nodes
  {
    if nodes != [] {
      FirstPostContentIsFirstElement(nodes[1..]);
      if nodes[0].Element? {
        var children, rest := Elements(nodes[0].children), Elements(nodes[1..]);
        FirstPostContentIsFirstElement(nodes[0].children);
        assert Elements(nodes) == [nodes[0]] + children + rest;
        FirstMatchConcat([nodes[0]] + children, rest);
        FirstMatchConcat([nodes[0]], children);
        assert FirstMatch([nodes[0]]) == if IsPostContentNode(nodes[0]) then Some(nodes[0]) else None by {
          assert [nodes[0]][1..] == [];
        }
      }
    }
  }

  /** The `img` rewrite: a non-empty `ess-data` becomes `src`, and the
      lazy-loader's attributes go. */
  function PromoteLazyImage(a: map<string, string>): (r: map<string, string>)
    ensures "ess-data" !in r && "iyl-data" !in r
    ensures "ess-data" in a && a["ess-data"] != "" ==> "src" in r && r["src"] == a["ess-data"]
    ensures !("ess-data" in a && a["ess-data"] != "") ==>
              ("src" in r <==> "src" in a) && ("src" in a ==> r["src"] == a["src"])
    ensures forall k :: k != "src" && k != "ess-data" && k != "iyl-data" ==>
              (k in r <==> k in a) && (k in a ==> r[k] == a[k])
  {
    var promoted := if "ess-data" in a && a["ess-data"] != "" then a["src" := a["ess-data"]] else a;
    promoted - {"ess-data", "iyl-data"}
  }

  /** The `a` rewrite: an `href` that mentions the redirector is unwrapped;
      every other attribute, and every other `href`, stays. */
  function UnwrapLink(a: map<string, string>): (r: map<string, string>)
    ensures r.Keys == a.Keys
    ensures "href" in a && Contains(a["href"], "redircdn") ==> r["href"] == KillRedircdn(a["href"])
    ensures "href" in a && !Contains(a["href"], "redircdn") ==> r["href"] == a["href"]
    ensures forall k :: k in a && k != "href" ==> r[k] == a[k]
  {
    if "href" in a && Contains(a["href"], "redircdn") then a["href" := KillRedircdn(a["href"])] else a
  }

  /** The two `.each` loops of `parseContent`. */
  datatype Rewrite = PromoteImages | UnwrapLinks

  /** What one loop does to one element. */
  function ApplyRewrite(rw: Rewrite, t: Tag): Tag {
    match rw
    case PromoteImages => if t.name == "img" then Tag(t.name, PromoteLazyImage(t.attribs)) else t
    case UnwrapLinks => if t.name == "a" then Tag(t.name, UnwrapLink(t.attribs)) else t
  }

  /** A loop over every matching descendant, applied to the whole forest. */
  function RewriteTree(nodes: seq<Node>, rw: Rewrite): seq<Node>
    decreases nodes
  {
    if nodes == [] then []
    else match nodes[0]
      case Text(_) => [nodes[0]] + RewriteTree(nodes[1..], rw)
      case Element(name, attribs, children) =>
        var t := ApplyRewrite(rw, Tag(name, attribs));
        [Element(t.name, t.attribs, RewriteTree(children, rw))] + RewriteTree(nodes[1..], rw)
  }

  /** `content.find('.t_like').remove()`: every descendant with the class
      goes, with everything inside it. */
  function RemoveLikeWidgets(nodes: seq<Node>): seq<Node>
    decreases nodes
  {
    if nodes == [] then []
    else match nodes[0]
      case Text(_) => [nodes[0]] + RemoveLikeWidgets(nodes[1..])
      case Element(name, attribs, children) =>
        (if HasClass(attribs, "t_like") then [] else [Element(name, attribs, RemoveLikeWidgets(children))])
        + RemoveLikeWidgets(nodes[1..])
  }

  /** The children of the first post after the three DOM edits. */
  function RewriteContent(children: seq<Node>): seq<Node> {
    RewriteTree(RewriteTree(RemoveLikeWidgets(children), PromoteImages), UnwrapLinks)
  }

  /** `parseContent(htmlString)`, given the parsed page and cheerio's
      `.html()` serialisation of a list of children. */
  function ParseContent(document: seq<Node>, innerHtml: seq<Node> -> string): (r: JsValue)
    ensures FirstPostContent(document).None? <==> r == Null
    ensures FirstPostContent(document).Some? ==>
              r == RemoveInvalidChars(Str(innerHtml(RewriteContent(FirstPostContent(document).value.children))))
    ensures r.Str? ==> NoInvalidControls(r.text) && NoRightToLeftOverride(r.text)
  {
    match FirstPostContent(document)
    case None => RemoveInvalidChars(Null)
    case Some(content) => RemoveInvalidChars(Str(innerHtml(RewriteContent(content.children))))
  }

  /** A rewrite applied to a list of elements, one by one. */
  function MapTags(ts: seq<Tag>, rw: Rewrite): (r: seq<Tag>)
    ensures |r| == |ts|
  {
    if ts == [] then [] else [ApplyRewrite(rw, ts[0])] + MapTags(ts[1..], rw)
  }

  lemma {:induction false} MapTagsAt(ts: seq<Tag>, rw: Rewrite)
    ensures forall i :: 0 <= i < |ts| ==> MapTags(ts, rw)[i] == ApplyRewrite(rw, ts[i])
  {
    if ts != [] {
      MapTagsAt(ts[1..], rw);
    }
  }

  lemma {:induction false} MapTagsConcat(a: seq<Tag>, b: seq<Tag>, rw: Rewrite)
    ensures MapTags(a + b, rw) == MapTags(a, rw) + MapTags(b, rw)
  {
    if a == [] {
      assert a + b == b;
    } else {
      assert (a + b)[1..] == a[1..] + b;
      MapTagsConcat(a[1..], b, rw);
    }
  }

  /** The tree rewrite changes each element exactly as the loop body says
      and keeps the document order. */
  lemma {:induction false} RewriteTreeTags(nodes: seq<Node>, rw: Rewrite)
    ensures Tags(RewriteTree(nodes, rw)) == MapTags(Tags(nodes), rw)
    decreases nodes
  {
    if nodes != [] {
      RewriteTreeTags(nodes[1..], rw);
      match nodes[0]
      case Text(_) =>
      case Element(name, attribs, children) =>
        RewriteTreeTags(children, rw);
        var t := ApplyRewrite(rw, Tag(name, attribs));
        var r := RewriteTree(nodes, rw);
        assert r[0] == Element(t.name, t.attribs, RewriteTree(children, rw));
        assert r[1..] == RewriteTree(nodes[1..], rw);
        MapTagsConcat([Tag(name, attribs)] + Tags(children), Tags(nodes[1..]), rw);
        MapTagsConcat([Tag(name, attribs)], Tags(children), rw);
    }
  }

  /** No listed element has the class. */
  predicate NoneHasClass(ts: seq<Tag>, cls: string) {
    forall i :: 0 <= i < |ts| ==> !HasClass(ts[i].attribs, cls)
  }

  lemma NoneHasClassConcat(a: seq<Tag>, b: seq<Tag>, cls: string)
    requires NoneHasClass(a, cls) && NoneHasClass(b, cls)
    ensures NoneHasClass(a + b, cls)
  {
    forall i | 0 <= i < |a + b| ensures !HasClass((a + b)[i].attribs, cls) {
      if i < |a| { assert (a + b)[i] == a[i]; } else { assert (a + b)[i] == b[i - |a|]; }
    }
  }

  /** After the removal no element with class `t_like` is left, at any
      depth. */
  lemma {:induction false} LikeWidgetsRemoved(nodes: seq<Node>)
    ensures NoneHasClass(Tags(RemoveLikeWidgets(nodes)), "t_like")
    decreases nodes
  {
    if nodes != [] {
      LikeWidgetsRemoved(nodes[1..]);
      var r := RemoveLikeWidgets(nodes);
      match nodes[0]
      case Text(_) =>
        assert r == [nodes[0]] + RemoveLikeWidgets(nodes[1..]);
        assert Tags(r) == Tags(RemoveLikeWidgets(nodes[1..]));
      case Element(name, attribs, children) =>
        if HasClass(attribs, "t_like") {
          assert r == RemoveLikeWidgets(nodes[1..]);
        } else {
          LikeWidgetsRemoved(children);
          assert r[0] == Element(name, attribs, RemoveLikeWidgets(children));
          assert r[1..] == RemoveLikeWidgets(nodes[1..]);
          assert Tags(r) == [Tag(name, attribs)] + Tags(RemoveLikeWidgets(children)) + Tags(RemoveLikeWidgets(nodes[1..]));
          NoneHasClassConcat([Tag(name, attribs)], Tags(RemoveLikeWidgets(children)), "t_like");
          NoneHasClassConcat([Tag(name, attribs)] + Tags(RemoveLikeWidgets(children)), Tags(RemoveLikeWidgets(nodes[1..])), "t_like");
        }
    }
  }

  /** Each part of a list without the class is without it too. */
  lemma NoneHasClassParts(a: seq<Tag>, b: seq<Tag>, cls: string)
    requires NoneHasClass(a + b, cls)
    ensures NoneHasClass(a, cls) && NoneHasClass(b, cls)
  {
    forall i | 0 <= i < |a| ensures !HasClass(a[i].attribs, cls) {
      assert (a + b)[i] == a[i];
    }
    forall i | 0 <= i < |b| ensures !HasClass(b[i].attribs, cls) {
      assert (a + b)[|a| + i] == b[i];
    }
  }

  /** A forest with no `t_like` element is left as it is. */
  lemma {:induction false} NoLikeWidgetsKept(nodes: seq<Node>)
    requires NoneHasClass(Tags(nodes), "t_like")
    ensures RemoveLikeWidgets(nodes) == nodes
    decreases nodes
  {
    if nodes != [] {
      match nodes[0]
      case Text(_) =>
        assert Tags(nodes) == Tags(nodes[1..]);
        NoLikeWidgetsKept(nodes[1..]);
      case Element(name, attribs, children) =>
        var tag := Tag(name, attribs);
        assert Tags(nodes) == [tag] + Tags(children) + Tags(nodes[1..]);
        NoneHasClassParts([tag] + Tags(children), Tags(nodes[1..]), "t_like");
        NoneHasClassParts([tag], Tags(children), "t_like");
        assert [tag][0] == tag;
        NoLikeWidgetsKept(children);
        NoLikeWidgetsKept(nodes[1..]);
    }
    assert nodes == [] || nodes == [nodes[0]] + nodes[1..];
  }

  /** The removal changes the forest exactly when some element in it, at
      any depth, has the class `t_like`. */
  lemma LikeWidgetRemovalFixedPoints(nodes: seq<Node>)
    ensures RemoveLikeWidgets(nodes) == nodes <==> NoneHasClass(Tags(nodes), "t_like")
  {
    LikeWidgetsRemoved(nodes);
    if NoneHasClass(Tags(nodes), "t_like") {
      NoLikeWidgetsKept(nodes);
    }
  }

  /** For each element of a forest, in document order: whether it has the
      class `t_like` or sits inside an element that has it (`inside` says
      whether the forest itself does). */
  function Covered(nodes: seq<Node>, inside: bool): (r: seq<bool>)
    ensures |r| == |Tags(nodes)|
    decreases nodes
  {
    if nodes == [] then []
    else match nodes[0]
      case Text(_) => Covered(nodes[1..], inside)
      case Element(name, attribs, children) =>
        var c := inside || HasClass(attribs, "t_like");
        [c] + Covered(children, c) + Covered(nodes[1..], inside)
  }

  /** The elements whose mark is false, in order. */
  function Uncovered(ts: seq<Tag>, marks: seq<bool>): (r: seq<Tag>)
    requires |marks| == |ts|
    ensures |r| <= |ts|
  {
    if ts == [] then []
    else (if marks[0] then [] else [ts[0]]) + Uncovered(ts[1..], marks[1..])
  }

  lemma {:induction false} UncoveredConcat(a: seq<Tag>, ma: seq<bool>, b: seq<Tag>, mb: seq<bool>)
    requires |ma| == |a| && |mb| == |b|
    ensures Uncovered(a + b, ma + mb) == Uncovered(a, ma) + Uncovered(b, mb)
  {
    if a != [] {
      var head := if ma[0] then [] else [a[0]];
      assert (a + b)[0] == a[0] && (ma + mb)[0] == ma[0];
      assert (a + b)[1..] == a[1..] + b;
      assert (ma + mb)[1..] == ma[1..] + mb;
      UncoveredConcat(a[1..], ma[1..], b, mb);
      var left, right := Uncovered(a[1..], ma[1..]), Uncovered(b, mb);
      assert Uncovered(a + b, ma + mb) == head + (left + right);
      assert head + (left + right) == head + left + right;
    } else {
      assert a + b == b && ma + mb == mb;
    }
  }

  /** Inside a `t_like` element everything is covered. */
  lemma {:induction false} CoveredInside(nodes: seq<Node>)
    ensures Uncovered(Tags(nodes), Covered(nodes, true)) == []
    decreases nodes
  {
    if nodes != [] {
      CoveredInside(nodes[1..]);
      match nodes[0]
      case Text(_) =>
      case Element(name, attribs, children) =>
        CoveredInside(children);
        var t := [Tag(name, attribs)];
        UncoveredConcat(t + Tags(children), [true] + Covered(children, true), Tags(nodes[1..]), Covered(nodes[1..], true));
        UncoveredConcat(t, [true], Tags(children), Covered(children, true));
    }
  }

  /** Every element with the class `t_like` is covered. */
  lemma {:induction false} LikeWidgetsCovered(nodes: seq<Node>, inside: bool)
    ensures forall i :: 0 <= i < |Tags(nodes)| && HasClass(Tags(nodes)[i].attribs, "t_like") ==> Covered(nodes, inside)[i]
    decreases nodes
  {
    if nodes != [] {
      LikeWidgetsCovered(nodes[1..], inside);
      match nodes[0]
      case Text(_) =>
      case Element(name, attribs, children) =>
        var c := inside || HasClass(attribs, "t_like");
        LikeWidgetsCovered(children, c);
        var ts, ms := Tags(nodes), Covered(nodes, inside);
        var n := 1 + |Tags(children)|;
        forall i | 0 <= i < |ts| && HasClass(ts[i].attribs, "t_like") ensures ms[i] {
          if i == 0 {
          } else if i < n {
            assert ts[i] == Tags(children)[i - 1] && ms[i] == Covered(children, c)[i - 1];
          } else {
            assert ts[i] == Tags(nodes[1..])[i - n] && ms[i] == Covered(nodes[1..], inside)[i - n];
          }
        }
    }
  }

  /** What the removal keeps: exactly the elements that neither have the
      class `t_like` nor sit inside an element that has it, in document
      order. */
  lemma {:induction false} LikeWidgetRemovalKeeps(nodes: seq<Node>)
    ensures Tags(RemoveLikeWidgets(nodes)) == Uncovered(Tags(nodes), Covered(nodes, false))
    decreases nodes
  {
    if nodes != [] {
      LikeWidgetRemovalKeeps(nodes[1..]);
      var r := RemoveLikeWidgets(nodes);
      var rest := RemoveLikeWidgets(nodes[1..]);
      match nodes[0]
      case Text(_) =>
        assert r == [nodes[0]] + rest;
        assert Tags(r) == Tags(rest);
      case Element(name, attribs, children) =>
        var t := [Tag(name, attribs)];
        var c := HasClass(attribs, "t_like");
        UncoveredConcat(t + Tags(children), [c] + Covered(children, c), Tags(nodes[1..]), Covered(nodes[1..], false));
        UncoveredConcat(t, [c], Tags(children), Covered(children, c));
        if c {
          assert r == rest;
          CoveredInside(children);
        } else {
          LikeWidgetRemovalKeeps(children);
          assert r[0] == Element(name, attribs, RemoveLikeWidgets(children));
          assert r[1..] == rest;
          assert Tags(r) == t + Tags(RemoveLikeWidgets(children)) + Tags(rest);
        }
    }
  }

  /** The edits `parseContent` makes to the first post: no `t_like`
      element survives, no image keeps a lazy-loader attribute, and, in
      document order, every element of the post that is not inside a
      `t_like` element (nor one itself) comes out with the image rewrite and
      then the link rewrite applied, and no other element does. */
  lemma RewriteContentSound(children: seq<Node>)
    ensures var ts := Tags(RewriteContent(children));
      forall i :: 0 <= i < |ts| ==>
        !HasClass(ts[i].attribs, "t_like") &&
        (ts[i].name == "img" ==> "ess-data" !in ts[i].attribs && "iyl-data" !in ts[i].attribs)
    ensures Tags(RewriteContent(children)) ==
              MapTags(MapTags(Tags(RemoveLikeWidgets(children)), PromoteImages), UnwrapLinks)
    ensures Tags(RewriteContent(children)) ==
              MapTags(MapTags(Uncovered(Tags(children), Covered(children, false)), PromoteImages), UnwrapLinks)
  {
    LikeWidgetRemovalKeeps(children);
    var kept := RemoveLikeWidgets(children);
    var images := RewriteTree(kept, PromoteImages);
    LikeWidgetsRemoved(children);
    RewriteTreeTags(kept, PromoteImages);
    RewriteTreeTags(images, UnwrapLinks);
    var t0 := Tags(kept);
    var t1 := MapTags(t0, PromoteImages);
    var t2 := MapTags(t1, UnwrapLinks);
    MapTagsAt(t0, PromoteImages);
    MapTagsAt(t1, UnwrapLinks);
    forall i | 0 <= i < |t2|
      ensures !HasClass(t2[i].attribs, "t_like")
      ensures t2[i].name == "img" ==> "ess-data" !in t2[i].attribs && "iyl-data" !in t2[i].attribs
    {
      assert t1[i] == ApplyRewrite(PromoteImages, t0[i]);
      assert t2[i] == ApplyRewrite(UnwrapLinks, t1[i]);
      assert "class" in t1[i].attribs <==> "class" in t0[i].attribs;
      if "class" in t0[i].attribs {
        assert t1[i].attribs["class"] == t0[i].attribs["class"];
        assert t2[i].attribs["class"] == t0[i].attribs["class"];
      }
    }
  }

  /** A post without `t_like` elements keeps every element, each with the
      two rewrites applied, in document order. */
  lemma RewriteContentKeepsPlainPost(children: seq<Node>)
    requires NoneHasClass(Tags(children), "t_like")
    ensures Tags(RewriteContent(children)) == MapTags(MapTags(Tags(children), PromoteImages), UnwrapLinks)
  {
    NoLikeWidgetsKept(children);
    RewriteTreeTags(children, PromoteImages);
    RewriteTreeTags(RewriteTree(children, PromoteImages), UnwrapLinks);
  }
}
