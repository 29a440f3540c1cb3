/** The gallery's title derivation: a filename becomes a display title by
    removing one extension, turning runs of '-' and '_' into a space,
    collapsing whitespace runs to one space, and trimming. */
module Title {
  import opened Wrappers
  import opened Text

  // ---------------------------------------------------------------------------
  // Step 1: the first match of the pattern \.[^/.]+$ is replaced by nothing.

  /** The pattern `\.[^/.]+$` matches at index i: a '.', then at least one
      character, none of them '.' or '/', up to the end of the string. */
  predicate ExtensionMatchAt(s: string, i: int) {
    && 0 <= i < |s| - 1
    && s[i] == '.'
    && forall k | i < k < |s| :: s[k] != '.' && s[k] != '/'
  }

  /** The leftmost match at or after `from`, the one a regular-expression
      search reports. */
  function FirstExtensionMatch(s: string, from: nat): (r: Option<nat>)
    requires from <= |s|
    ensures r.Some? ==> from <= r.value && ExtensionMatchAt(s, r.value)
    ensures r.Some? ==> forall j | from <= j < r.value :: !ExtensionMatchAt(s, j)
    ensures r.None? ==> forall j | from <= j :: !ExtensionMatchAt(s, j)
    decreases |s| - from
  {
    if from == |s| then None
    else if ExtensionMatchAt(s, from) then Some(from)
    else FirstExtensionMatch(s, from + 1)
  }

  /** The filename without its last extension. Either nothing is removed
      (exactly when the pattern matches nowhere), or what is removed is a '.'
      followed by a non-empty tail free of '.' and '/'. */
  function StripExtension(s: string): (r: string)
    ensures r <= s
    ensures r == s <==> forall i :: !ExtensionMatchAt(s, i)
    ensures r != s ==> ExtensionMatchAt(s, |r|)
  {
    match FirstExtensionMatch(s, 0)
    case Some(i) => s[..i]
    case None => s
  }

  /** Only the final extension goes: `stem.ext` loses `.ext` and keeps every
      '.' inside the stem. */
  lemma StripSingleExtension(stem: string, ext: string)
    requires ext != [] && '.' !in ext && '/' !in ext
    ensures StripExtension(stem + "." + ext) == stem
  {
    var s := stem + "." + ext;
    forall k | |stem| < k < |s|
      ensures s[k] != '.' && s[k] != '/'
    {
      assert s[k] == ext[k - |stem| - 1];
    }
    assert ExtensionMatchAt(s, |stem|);
  }

  /** A name without '.' and a name ending in '.' lose nothing. */
  lemma StripKeepsUndottedName(s: string)
    requires '.' !in s || (s != [] && s[|s| - 1] == '.')
    ensures StripExtension(s) == s
  {
  }

  // ---------------------------------------------------------------------------
  // Steps 2 and 3: global replacement of [-_]+ and of \s+ by one space.

  /** The character classes of the two replacements, and their union. */
  datatype CharClass = DashOrUnderscore | Whitespace | Separator

  predicate InClass(k: CharClass, c: char) {
    match k
    case DashOrUnderscore => c == '-' || c == '_'
    case Whitespace => IsWhitespace(c)
    case Separator => c == '-' || c == '_' || IsWhitespace(c)
  }

  /** The length of the longest prefix of s whose characters are all in
      (inside) or all outside (!inside) class k. */
  function RunLength(s: string, k: CharClass, inside: bool): (n: nat)
    ensures n <= |s|
    ensures forall i | 0 <= i < n :: InClass(k, s[i]) == inside
    ensures n < |s| ==> InClass(k, s[n]) != inside
    decreases |s|
  {
    if s == [] || InClass(k, s[0]) != inside then 0 else 1 + RunLength(s[1..], k, inside)
  }

  /** A global regular-expression replacement of `[-_]+` (or `\s+`) by " ":
      each maximal run of the class becomes one ' '. */
  function ReplaceRuns(s: string, k: CharClass): (r: string)
    ensures |r| <= |s| && (r == [] <==> s == [])
    ensures s != [] ==> r[0] == if InClass(k, s[0]) then ' ' else s[0]
    decreases |s|
  {
    if s == [] then []
    else if InClass(k, s[0]) then " " + ReplaceRuns(s[RunLength(s, k, true)..], k)
    else [s[0]] + ReplaceRuns(s[1..], k)
  }

  /** The only class character in r is ' '. */
  predicate OnlySpacesOf(r: string, k: CharClass) {
    forall i | 0 <= i < |r| && InClass(k, r[i]) :: r[i] == ' '
  }

  /** No two neighbours in r are both class characters. */
  predicate NoRunOf(r: string, k: CharClass) {
    forall i | 0 <= i < |r| - 1 :: !(InClass(k, r[i]) && InClass(k, r[i + 1]))
  }

  /** After the replacement no run is left: the only class character is the
      ' ' a run became, and no two class characters are neighbours. */
  lemma {:induction false} ReplaceRunsCollapses(s: string, k: CharClass)
    ensures OnlySpacesOf(ReplaceRuns(s, k), k) && NoRunOf(ReplaceRuns(s, k), k)
    decreases |s|
  {
    if s != [] {
      var rest := if InClass(k, s[0]) then s[RunLength(s, k, true)..] else s[1..];
      var r, tail := ReplaceRuns(s, k), ReplaceRuns(rest, k);
      assert OnlySpacesOf(tail, k) && NoRunOf(tail, k) by {
        ReplaceRunsCollapses(rest, k);
      }
      assert r[0] == if InClass(k, s[0]) then ' ' else s[0];
      assert r == [r[0]] + tail;
      assert tail != [] && InClass(k, r[0]) ==> !InClass(k, tail[0]) by {
        if tail != [] && InClass(k, s[0]) {
          assert rest[0] == s[RunLength(s, k, true)];
        }
      }
      CollapsedCons(r[0], tail, k);
    }
  }

  /** Putting one character in front keeps a collapsed string collapsed
      when it is a ' ' or outside the class, and is not a class character
      next to another. */
  lemma CollapsedCons(c: char, tail: string, k: CharClass)
    requires OnlySpacesOf(tail, k) && NoRunOf(tail, k)
    requires InClass(k, c) ==> c == ' '
    requires tail != [] && InClass(k, c) ==> !InClass(k, tail[0])
    ensures OnlySpacesOf([c] + tail, k) && NoRunOf([c] + tail, k)
  {
    var r := [c] + tail;
    forall i | 0 <= i < |r| && InClass(k, r[i])
      ensures r[i] == ' '
    {
      if i > 0 { assert r[i] == tail[i - 1]; }
    }
    forall i | 0 <= i < |r| - 1
      ensures !(InClass(k, r[i]) && InClass(k, r[i + 1]))
    {
      assert r[i + 1] == tail[i];
      if i > 0 { assert r[i] == tail[i - 1]; }
    }
  }

  /** The characters of s that are neither in the class nor ' ', in order. */
  function Kept(s: string, k: CharClass): string
    decreases |s|
  {
    if s == [] then []
    else (if InClass(k, s[0]) || s[0] == ' ' then [] else [s[0]]) + Kept(s[1..], k)
  }

  /** The replacement only rewrites runs: every character that is neither in
      the class nor ' ' survives, in its original order, and nothing else of
      that kind appears. */
  lemma {:induction false} ReplaceRunsKeepsRest(s: string, k: CharClass)
    ensures Kept(ReplaceRuns(s, k), k) == Kept(s, k)
    decreases |s|
  {
    if s != [] {
      var r := ReplaceRuns(s, k);
      if InClass(k, s[0]) {
        var m := RunLength(s, k, true);
        assert Kept(s, k) == Kept(s[m..], k) by {
          KeptSkipsRun(s, k, m);
        }
        assert Kept(ReplaceRuns(s[m..], k), k) == Kept(s[m..], k) by {
          ReplaceRunsKeepsRest(s[m..], k);
        }
        assert r[0] == ' ' && r[1..] == ReplaceRuns(s[m..], k);
      } else {
        assert Kept(ReplaceRuns(s[1..], k), k) == Kept(s[1..], k) by {
          ReplaceRunsKeepsRest(s[1..], k);
        }
        assert r[0] == s[0] && r[1..] == ReplaceRuns(s[1..], k);
      }
    }
  }

  lemma {:induction false} KeptSkipsRun(s: string, k: CharClass, m: nat)
    requires m <= |s|
    requires forall i | 0 <= i < m :: InClass(k, s[i])
    ensures Kept(s, k) == Kept(s[m..], k)
    decreases m
  {
    if m > 0 {
      assert Kept(s, k) == Kept(s[1..], k);
      KeptSkipsRun(s[1..], k, m - 1);
      assert s[1..][m - 1..] == s[m..];
    }
  }

  // ---------------------------------------------------------------------------
  // Step 4: String.prototype.trim.

  function TrimStart(s: string): (r: string)
    ensures |r| <= |s| && r == s[|s| - |r|..]
    ensures r == [] || !IsWhitespace(r[0])
    ensures forall i | 0 <= i < |s| - |r| :: IsWhitespace(s[i])
  {
    s[RunLength(s, Whitespace, true)..]
  }

  function TrimEnd(s: string): (r: string)
    ensures r <= s
    ensures r == [] || !IsWhitespace(r[|r| - 1])
    ensures forall i | |r| <= i < |s| :: IsWhitespace(s[i])
    decreases |s|
  {
    if s != [] && IsWhitespace(s[|s| - 1]) then TrimEnd(s[..|s| - 1]) else s
  }

  /** Leading and trailing whitespace removed, nothing else touched. */
  function Trim(s: string): (r: string)
    ensures r == [] || (!IsWhitespace(r[0]) && !IsWhitespace(r[|r| - 1]))
    ensures exists i, j | 0 <= i <= j <= |s| ::
      && r == s[i..j]
      && (forall k | 0 <= k < i :: IsWhitespace(s[k]))
      && (forall k | j <= k < |s| :: IsWhitespace(s[k]))
  {
    TrimIsSlice(s);
    TrimEnd(TrimStart(s))
  }

  lemma TrimIsSlice(s: string)
    ensures exists i, j | 0 <= i <= j <= |s| ::
      && TrimEnd(TrimStart(s)) == s[i..j]
      && (forall k | 0 <= k < i :: IsWhitespace(s[k]))
      && (forall k | j <= k < |s| :: IsWhitespace(s[k]))
  {
    var t := TrimStart(s);
    var i := |s| - |t|;
    var j := i + |TrimEnd(t)|;
    assert s[i..j] == TrimEnd(t);
    assert forall k | j <= k < |s| :: s[k] == t[k - i];
  }

  // ---------------------------------------------------------------------------
  // The title.

  function TitleFromFilename(filename: string): (r: string)
    ensures r == JoinWords(Words(StripExtension(filename)))
    ensures IsNormalTitle(r)
  {
    var stem := StripExtension(filename);
    CollapseComposition(stem);
    TrimCollapsed(stem);
    JoinedWordsNormal(Words(stem));
    Trim(ReplaceRuns(ReplaceRuns(stem, DashOrUnderscore), Whitespace))
  }

  // ---------------------------------------------------------------------------
  // The reference description: a title is the words of the stem, where a word
  // is a maximal run of characters that are neither '-', '_' nor whitespace,
  // joined by single spaces.

  /** A word: a non-empty string with no '-', '_' or whitespace in it. */
  predicate IsWord(w: string) {
    w != [] && forall i | 0 <= i < |w| :: !InClass(Separator, w[i])
  }

  function Words(s: string): (ws: seq<string>)
    ensures forall j | 0 <= j < |ws| :: IsWord(ws[j])
    decreases |s|
  {
    var t := s[RunLength(s, Separator, true)..];
    if t == [] then []
    else
      var n := RunLength(t, Separator, false);
      WordRun(s, t);
      WordsCons(t[..n], Words(t[n..]));
      [t[..n]] + Words(t[n..])
  }

  lemma WordsCons(w: string, rest: seq<string>)
    requires IsWord(w) && forall j | 0 <= j < |rest| :: IsWord(rest[j])
    ensures forall j | 0 <= j < 1 + |rest| :: IsWord(([w] + rest)[j])
  {
  }

  /** What follows the leading separators, if anything, starts with a word. */
  lemma WordRun(s: string, t: string)
    requires t == s[RunLength(s, Separator, true)..] && t != []
    ensures IsWord(t[..RunLength(t, Separator, false)])
  {
    var m := RunLength(s, Separator, true);
    assert t[0] == s[m];
  }

  function JoinWords(ws: seq<string>): string
    decreases |ws|
  {
    if ws == [] then ""
    else if |ws| == 1 then ws[0]
    else ws[0] + " " + JoinWords(ws[1..])
  }

  /** The normal form of a title: no '-' or '_', and every whitespace character
      is a single ' ' standing between two non-whitespace characters (so none
      leads, none trails and none is doubled). */
  predicate IsNormalTitle(t: string) {
    && (forall i | 0 <= i < |t| :: t[i] != '-' && t[i] != '_')
    && (forall i | 0 <= i < |t| && IsWhitespace(t[i]) ::
          t[i] == ' ' && 0 < i < |t| - 1 && !IsWhitespace(t[i - 1]) && !IsWhitespace(t[i + 1]))
  }

  // ---------------------------------------------------------------------------
  // Proofs.

  predicate AllInClass(s: string, k: CharClass) {
    forall i | 0 <= i < |s| :: InClass(k, s[i])
  }

  lemma RunLengthIs(s: string, k: CharClass, inside: bool, m: nat)
    requires m <= |s|
    requires forall i | 0 <= i < m :: InClass(k, s[i]) == inside
    requires m < |s| ==> InClass(k, s[m]) != inside
    ensures RunLength(s, k, inside) == m
  {
  }

  /** Characters outside the class are copied unchanged. */
  lemma {:induction false} ReplaceRunsOfPlain(a: string, b: string, k: CharClass)
    requires forall i | 0 <= i < |a| :: !InClass(k, a[i])
    ensures ReplaceRuns(a + b, k) == a + ReplaceRuns(b, k)
    decreases |a|
  {
    if a == [] {
      assert a + b == b;
    } else {
      var y := ReplaceRuns(b, k);
      assert ReplaceRuns(a + b, k) == [a[0]] + ReplaceRuns(a[1..] + b, k) by {
        assert (a + b)[0] == a[0];
        assert (a + b)[1..] == a[1..] + b;
      }
      assert ReplaceRuns(a[1..] + b, k) == a[1..] + y by {
        ReplaceRunsOfPlain(a[1..], b, k);
      }
      ConcatAssociative([a[0]], a[1..], y);
      assert [a[0]] + a[1..] == a;
    }
  }

  lemma AllInClassConcat(x: string, y: string, k: CharClass)
    requires AllInClass(x, k) && AllInClass(y, k)
    ensures AllInClass(x + y, k)
  {
    assert forall i | |x| <= i < |x + y| :: (x + y)[i] == y[i - |x|];
  }

  lemma AllInClassSuffix(x: string, m: nat, k: CharClass)
    requires AllInClass(x, k) && m <= |x|
    ensures AllInClass(x[m..], k)
  {
    assert forall i | 0 <= i < |x| - m :: x[m..][i] == x[m + i];
  }

  /** Replacing dash runs inside a run of separators does not reach past the
      end of that run. */
  lemma {:induction false} DashesStopAtRunEnd(a: string, b: string)
    requires AllInClass(a, Separator)
    requires b == [] || !InClass(Separator, b[0])
    ensures ReplaceRuns(a + b, DashOrUnderscore) == ReplaceRuns(a, DashOrUnderscore) + ReplaceRuns(b, DashOrUnderscore)
    decreases |a|
  {
    var D := DashOrUnderscore;
    if a == [] {
      assert a + b == b;
    } else {
      var m := if InClass(D, a[0]) then RunLength(a, D, true) else 1;
      var head := if InClass(D, a[0]) then " " else [a[0]];
      var x, y := ReplaceRuns(a[m..], D), ReplaceRuns(b, D);
      assert ReplaceRuns(a + b, D) == head + ReplaceRuns(a[m..] + b, D) && ReplaceRuns(a, D) == head + x by {
        DashStep(a, b);
      }
      assert ReplaceRuns(a[m..] + b, D) == x + y by {
        AllInClassSuffix(a, m, Separator);
        DashesStopAtRunEnd(a[m..], b);
      }
      ConcatAssociative(head, x, y);
    }
  }

  /** One step of the dash replacement at the start of a run of separators. */
  lemma DashStep(a: string, b: string)
    requires AllInClass(a, Separator) && a != []
    requires b == [] || !InClass(Separator, b[0])
    ensures
      var D := DashOrUnderscore;
      var m := if InClass(D, a[0]) then RunLength(a, D, true) else 1;
      var head := if InClass(D, a[0]) then " " else [a[0]];
      && ReplaceRuns(a + b, D) == head + ReplaceRuns(a[m..] + b, D)
      && ReplaceRuns(a, D) == head + ReplaceRuns(a[m..], D)
  {
    var D := DashOrUnderscore;
    var ab := a + b;
    assert ab[0] == a[0];
    var m := if InClass(D, a[0]) then RunLength(a, D, true) else 1;
    if InClass(D, a[0]) {
      DashRunStaysInside(a, b);
    }
    assert ab[m..] == a[m..] + b;
  }

  /** A dash run that starts in a run of separators ends inside it. */
  lemma DashRunStaysInside(a: string, b: string)
    requires AllInClass(a, Separator) && a != [] && InClass(DashOrUnderscore, a[0])
    requires b == [] || !InClass(Separator, b[0])
    ensures RunLength(a + b, DashOrUnderscore, true) == RunLength(a, DashOrUnderscore, true)
  {
    var D := DashOrUnderscore;
    var m := RunLength(a, D, true);
    var ab := a + b;
    forall i | 0 <= i < m
      ensures InClass(D, ab[i])
    {
      assert ab[i] == a[i];
    }
    if m < |ab| {
      if m < |a| {
        assert ab[m] == a[m];
      } else {
        assert ab[m] == b[0];
      }
    }
    RunLengthIs(ab, D, true, m);
  }

  /** Inside a run of separators the dash replacement leaves only whitespace. */
  lemma {:induction false} DashesOfSeparatorsAreSpaces(a: string)
    requires AllInClass(a, Separator)
    ensures AllInClass(ReplaceRuns(a, DashOrUnderscore), Whitespace)
    ensures a != [] ==> ReplaceRuns(a, DashOrUnderscore) != []
    decreases |a|
  {
    var D := DashOrUnderscore;
    if a != [] {
      var m := if InClass(D, a[0]) then RunLength(a, D, true) else 1;
      AllInClassSuffix(a, m, Separator);
      DashesOfSeparatorsAreSpaces(a[m..]);
      var head := if InClass(D, a[0]) then " " else [a[0]];
      assert ReplaceRuns(a, D) == head + ReplaceRuns(a[m..], D);
      assert AllInClass(head, Whitespace);
      AllInClassConcat(head, ReplaceRuns(a[m..], D), Whitespace);
    }
  }

  /** A replacement never starts with a whitespace character the input did
      not start with. */
  lemma ReplaceRunsHead(t: string, k: CharClass)
    requires t != [] && !InClass(k, t[0])
    ensures ReplaceRuns(t, k) != [] && ReplaceRuns(t, k)[0] == t[0]
  {
  }

  /** Step 3 after step 2 replaces each maximal run of separators by one space. */
  lemma {:induction false} CollapseComposition(s: string)
    ensures ReplaceRuns(ReplaceRuns(s, DashOrUnderscore), Whitespace) == ReplaceRuns(s, Separator)
    decreases |s|
  {
    var D, W := DashOrUnderscore, Whitespace;
    if s == [] {
    } else if !InClass(Separator, s[0]) {
      var x := ReplaceRuns(s[1..], D);
      assert ReplaceRuns(s, D) == [s[0]] + x;
      assert ([s[0]] + x)[0] == s[0];
      assert ([s[0]] + x)[1..] == x;
      assert ReplaceRuns([s[0]] + x, W) == [s[0]] + ReplaceRuns(x, W);
      CollapseComposition(s[1..]);
    } else {
      var m := RunLength(s, Separator, true);
      var a, t := s[..m], s[m..];
      assert s == a + t;
      assert AllInClass(a, Separator);
      DashesStopAtRunEnd(a, t);
      DashesOfSeparatorsAreSpaces(a);
      var u, v := ReplaceRuns(a, D), ReplaceRuns(t, D);
      if t != [] {
        ReplaceRunsHead(t, D);
      }
      assert forall i | 0 <= i < |u| :: (u + v)[i] == u[i];
      assert |u| < |u + v| ==> (u + v)[|u|] == v[0];
      RunLengthIs(u + v, W, true, |u|);
      assert (u + v)[0] == u[0];
      assert (u + v)[|u|..] == v;
      assert ReplaceRuns(u + v, W) == " " + ReplaceRuns(v, W);
      CollapseComposition(t);
    }
  }

  /** Dropping trailing whitespace only looks at the tail once the tail starts
      with a non-whitespace character. */
  lemma {:induction false} TrimEndAfter(a: string, b: string)
    requires b != [] && !IsWhitespace(b[0])
    ensures TrimEnd(a + b) == a + TrimEnd(b)
    decreases |b|
  {
    var ab := a + b;
    assert ab[|ab| - 1] == b[|b| - 1];
    if IsWhitespace(b[|b| - 1]) {
      assert ab[..|ab| - 1] == a + b[..|b| - 1];
      TrimEndAfter(a, b[..|b| - 1]);
    }
  }

  lemma WordsAfterSeparators(r: string)
    ensures Words(r) == Words(r[RunLength(r, Separator, true)..])
  {
    var p := RunLength(r, Separator, true);
    var t := r[p..];
    RunLengthIs(t, Separator, true, 0);
    assert t[0..] == t;
  }

  lemma WordsOfWordStart(t: string)
    requires t != [] && !InClass(Separator, t[0])
    ensures Words(t) == [t[..RunLength(t, Separator, false)]] + Words(t[RunLength(t, Separator, false)..])
  {
    RunLengthIs(t, Separator, true, 0);
    assert t[0..] == t;
  }

  lemma ReplaceRunsOfSeparatorStart(r: string)
    requires r != [] && InClass(Separator, r[0])
    ensures ReplaceRuns(r, Separator) == " " + ReplaceRuns(r[RunLength(r, Separator, true)..], Separator)
  {
  }

  lemma TrimEndWordSpace(w: string)
    requires IsWord(w)
    ensures TrimEnd(w + " ") == w
  {
    assert (w + " ")[..|w + " "| - 1] == w;
    assert !InClass(Separator, w[|w| - 1]);
  }

  /** A stem that starts with a word: that word comes first among its words
      and is copied unchanged to the front of its collapsed form. */
  lemma FirstWord(t: string)
    requires t != [] && !InClass(Separator, t[0])
    ensures IsWord(t[..RunLength(t, Separator, false)])
    ensures Words(t) == [t[..RunLength(t, Separator, false)]] + Words(t[RunLength(t, Separator, false)..])
    ensures ReplaceRuns(t, Separator) ==
      t[..RunLength(t, Separator, false)] + ReplaceRuns(t[RunLength(t, Separator, false)..], Separator)
  {
    FirstWordIsWord(t);
    WordsOfWordStart(t);
    FirstWordCopied(t);
  }

  lemma FirstWordIsWord(t: string)
    requires t != [] && !InClass(Separator, t[0])
    ensures IsWord(t[..RunLength(t, Separator, false)])
  {
    var w := t[..RunLength(t, Separator, false)];
    forall i | 0 <= i < |w|
      ensures !InClass(Separator, w[i])
    {
      assert w[i] == t[i];
    }
  }

  lemma FirstWordCopied(t: string)
    requires t != [] && !InClass(Separator, t[0])
    ensures ReplaceRuns(t, Separator) ==
      t[..RunLength(t, Separator, false)] + ReplaceRuns(t[RunLength(t, Separator, false)..], Separator)
  {
    var n := RunLength(t, Separator, false);
    var w, rest := t[..n], t[n..];
    assert w + rest == t;
    assert forall i | 0 <= i < |w| :: !InClass(Separator, w[i]) by {
      assert forall i | 0 <= i < |w| :: w[i] == t[i];
    }
    ReplaceRunsOfPlain(w, rest, Separator);
  }

  lemma WordThenSeparators(w: string, r: string)
    requires IsWord(w) && r != [] && InClass(Separator, r[0])
    ensures Words(r) == Words(r[RunLength(r, Separator, true)..])
    ensures ReplaceRuns(r, Separator) == " " + ReplaceRuns(r[RunLength(r, Separator, true)..], Separator)
    ensures r[RunLength(r, Separator, true)..] == [] ==> TrimEnd(w + ReplaceRuns(r, Separator)) == w
  {
    var r' := r[RunLength(r, Separator, true)..];
    WordsAfterSeparators(r);
    ReplaceRunsOfSeparatorStart(r);
    if r' == [] {
      assert ReplaceRuns(r', Separator) == [];
      TrimEndWordSpace(w);
    }
  }

  lemma LoneWord(w: string, r: string)
    requires IsWord(w) && r == []
    ensures TrimEnd(w + ReplaceRuns(r, Separator)) == w
    ensures Words(r) == []
  {
    assert w + ReplaceRuns(r, Separator) == w;
    assert !InClass(Separator, w[|w| - 1]);
  }

  lemma {:induction false} TrimEndCollapsed(t: string)
    requires t == [] || !InClass(Separator, t[0])
    ensures TrimEnd(ReplaceRuns(t, Separator)) == JoinWords(Words(t))
    decreases |t|
  {
    if t != [] {
      var n := RunLength(t, Separator, false);
      var w, r := t[..n], t[n..];
      assert IsWord(w) && Words(t) == [w] + Words(r) && ReplaceRuns(t, Separator) == w + ReplaceRuns(r, Separator) by {
        FirstWord(t);
      }
      if r == [] {
        LoneWord(w, r);
        assert Words(r) == [];
      } else {
        var r' := r[RunLength(r, Separator, true)..];
        assert && Words(r) == Words(r')
               && ReplaceRuns(r, Separator) == " " + ReplaceRuns(r', Separator)
               && (r' == [] ==> TrimEnd(w + ReplaceRuns(r, Separator)) == w) by {
          WordThenSeparators(w, r);
        }
        if r' == [] {
          assert Words(r') == [];
        } else {
          var x := ReplaceRuns(r', Separator);
          assert TrimEnd((w + " ") + x) == (w + " ") + TrimEnd(x) by {
            ReplaceRunsHead(r', Separator);
            TrimEndAfter(w + " ", x);
          }
          assert ReplaceRuns(t, Separator) == w + (" " + x);
          ConcatAssociative(w, " ", x);
          assert TrimEnd(x) == JoinWords(Words(r')) by {
            TrimEndCollapsed(r');
          }
          var ws := Words(r');
          assert ws != [] by {
            FirstWord(r');
          }
          assert ([w] + ws)[1..] == ws;
        }
      }
    }
  }

  lemma ConcatAssociative(a: string, b: string, c: string)
    ensures a + (b + c) == (a + b) + c
  {
  }

  lemma TrimStartBefore(pre: string, x: string)
    requires AllInClass(pre, Whitespace)
    requires x == [] || !IsWhitespace(x[0])
    ensures TrimStart(pre + x) == x
  {
    assert forall i | 0 <= i < |pre| :: (pre + x)[i] == pre[i];
    assert |pre| < |pre + x| ==> (pre + x)[|pre|] == x[0];
    RunLengthIs(pre + x, Whitespace, true, |pre|);
    assert (pre + x)[|pre|..] == x;
  }

  /** Trimming the separator-collapsed stem gives its words joined by spaces. */
  lemma TrimCollapsed(s: string)
    ensures Trim(ReplaceRuns(s, Separator)) == JoinWords(Words(s))
  {
    var m := RunLength(s, Separator, true);
    var t := s[m..];
    WordsAfterSeparators(s);
    var x := ReplaceRuns(t, Separator);
    if t != [] {
      ReplaceRunsHead(t, Separator);
    }
    var pre: string := if m == 0 then [] else " ";
    if m == 0 {
      assert t == s;
      assert ReplaceRuns(s, Separator) == pre + x;
    } else {
      ReplaceRunsOfSeparatorStart(s);
    }
    TrimStartBefore(pre, x);
    TrimEndCollapsed(t);
  }

  /** The separator replacement, exactly: one ' ' for a leading run, the
      words joined by single spaces, and one ' ' for a trailing run that
      follows a word. */
  lemma ReplaceRunsAsWords(s: string)
    ensures ReplaceRuns(s, Separator) ==
      (if s != [] && InClass(Separator, s[0]) then " " else "")
      + JoinWords(Words(s))
      + (if Words(s) != [] && InClass(Separator, s[|s| - 1]) then " " else "")
  {
    if s != [] && InClass(Separator, s[0]) {
      AsWordsFromSeparator(s);
    } else {
      AsWordsFromWord(s);
    }
  }

  lemma AsWordsFromWord(s: string)
    requires s == [] || !InClass(Separator, s[0])
    ensures ReplaceRuns(s, Separator) ==
      (if s != [] && InClass(Separator, s[0]) then " " else "")
      + JoinWords(Words(s))
      + (if Words(s) != [] && InClass(Separator, s[|s| - 1]) then " " else "")
  {
    assert ReplaceRuns(s, Separator) == JoinWords(Words(s)) + TrailingSpace(s) by {
      CollapsedFromWord(s);
    }
    assert s != [] ==> Words(s) != [] by {
      if s != [] {
        FirstWord(s);
      }
    }
    assert (if s != [] && InClass(Separator, s[0]) then " " else "") == "";
    assert "" + JoinWords(Words(s)) == JoinWords(Words(s));
  }

  lemma AsWordsFromSeparator(s: string)
    requires s != [] && InClass(Separator, s[0])
    ensures ReplaceRuns(s, Separator) ==
      (if s != [] && InClass(Separator, s[0]) then " " else "")
      + JoinWords(Words(s))
      + (if Words(s) != [] && InClass(Separator, s[|s| - 1]) then " " else "")
  {
    var t := s[RunLength(s, Separator, true)..];
    assert Words(s) == Words(t) by {
      WordsAfterSeparators(s);
    }
    assert ReplaceRuns(s, Separator) == " " + ReplaceRuns(t, Separator) by {
      ReplaceRunsOfSeparatorStart(s);
    }
    assert t == [] || !InClass(Separator, t[0]) by {
      RunLengthIs(s, Separator, true, RunLength(s, Separator, true));
    }
    var ws := Words(t);
    assert ReplaceRuns(t, Separator) == JoinWords(ws) + TrailingSpace(t) by {
      CollapsedFromWord(t);
    }
    assert t != [] ==> ws != [] && t[|t| - 1] == s[|s| - 1] by {
      if t != [] {
        FirstWord(t);
      }
    }
    assert TrailingSpace(t) == (if ws != [] && InClass(Separator, s[|s| - 1]) then " " else "");
    ConcatAssociative(" ", JoinWords(ws), TrailingSpace(t));
  }

  /** The separator replacement of a stem that starts with a word (or is
      empty): its words joined by single spaces, and one ' ' more when the
      stem ends in a separator. */
  lemma {:induction false} CollapsedFromWord(t: string)
    requires t == [] || !InClass(Separator, t[0])
    ensures ReplaceRuns(t, Separator) == JoinWords(Words(t)) + TrailingSpace(t)
    decreases |t|
  {
    if t != [] {
      var n := RunLength(t, Separator, false);
      var r := t[n..];
      if r == [] {
        CollapsedLoneWord(t);
      } else {
        var r' := r[RunLength(r, Separator, true)..];
        if r' == [] {
          CollapsedWordThenRun(t);
        } else {
          RunLengthIs(r, Separator, true, RunLength(r, Separator, true));
          CollapsedFromWord(r');
          WordSeparatorsMore(t, t[..n], r');
          JoinWordsThenTail(t[..n], Words(r'), TrailingSpace(t));
        }
      }
    }
  }

  /** One ' ' when the string ends in a separator, otherwise nothing. */
  function TrailingSpace(t: string): string {
    if t != [] && InClass(Separator, t[|t| - 1]) then " " else ""
  }

  lemma CollapsedLoneWord(t: string)
    requires t != [] && !InClass(Separator, t[0])
    requires RunLength(t, Separator, false) == |t|
    ensures ReplaceRuns(t, Separator) == JoinWords(Words(t)) + TrailingSpace(t)
  {
    var n := RunLength(t, Separator, false);
    var w, r := t[..n], t[n..];
    assert w == t && r == [];
    assert Words(t) == [w] + Words(r) && ReplaceRuns(t, Separator) == w + ReplaceRuns(r, Separator) by {
      FirstWord(t);
    }
    assert Words(r) == [] && ReplaceRuns(r, Separator) == [];
    assert !InClass(Separator, t[|t| - 1]);
    assert JoinWords([w]) == w;
  }

  lemma CollapsedWordThenRun(t: string)
    requires t != [] && !InClass(Separator, t[0])
    requires var n := RunLength(t, Separator, false);
      n < |t| && RunLength(t[n..], Separator, true) == |t| - n
    ensures ReplaceRuns(t, Separator) == JoinWords(Words(t)) + TrailingSpace(t)
  {
    var n := RunLength(t, Separator, false);
    var w, r := t[..n], t[n..];
    var r' := r[RunLength(r, Separator, true)..];
    assert r' == [];
    assert Words(t) == [w] by {
      WordRunWords(t, w, r');
      assert [w] + [] == [w];
    }
    assert ReplaceRuns(t, Separator) == w + " " by {
      WordRunReplaced(t, w, r');
      assert " " + [] == " ";
    }
    assert TrailingSpace(t) == " " by {
      assert t[|t| - 1] == r[|r| - 1];
    }
    assert JoinWords([w]) == w;
  }

  /** A stem made of a word, a separator run and a non-empty rest: the word
      comes first among the words, the rest has words of its own, and the
      stem ends as the rest does. */
  lemma WordSeparatorsMore(t: string, w: string, r': string)
    requires t != [] && !InClass(Separator, t[0])
    requires w == t[..RunLength(t, Separator, false)] && |w| < |t|
    requires r' == t[|w|..][RunLength(t[|w|..], Separator, true)..] && r' != []
    ensures ReplaceRuns(t, Separator) == w + (" " + ReplaceRuns(r', Separator))
    ensures Words(t) == [w] + Words(r') && Words(r') != []
    ensures TrailingSpace(r') == TrailingSpace(t)
  {
    WordRunReplaced(t, w, r');
    WordRunWords(t, w, r');
    RestAfterRun(t[|w|..], r');
  }

  /** What follows a separator run starts with a word and ends as the
      whole string does. */
  lemma RestAfterRun(r: string, r': string)
    requires r' == r[RunLength(r, Separator, true)..] && r' != []
    ensures Words(r') != [] && TrailingSpace(r') == TrailingSpace(r)
  {
    assert r'[|r'| - 1] == r[|r| - 1];
    assert !InClass(Separator, r'[0]);
    WordsOfWordStart(r');
  }

  /** A word followed by a separator run: the word is copied and the run
      becomes one ' '. */
  lemma WordRunReplaced(t: string, w: string, r': string)
    requires t != [] && !InClass(Separator, t[0])
    requires w == t[..RunLength(t, Separator, false)] && |w| < |t|
    requires r' == t[|w|..][RunLength(t[|w|..], Separator, true)..]
    ensures ReplaceRuns(t, Separator) == w + (" " + ReplaceRuns(r', Separator))
  {
    var r := t[|w|..];
    assert ReplaceRuns(t, Separator) == w + ReplaceRuns(r, Separator) by {
      FirstWordCopied(t);
    }
    assert r != [] && InClass(Separator, r[0]);
    ReplaceRunsOfSeparatorStart(r);
  }

  /** A word followed by a separator run: the word is the first word and
      the run contributes none. */
  lemma WordRunWords(t: string, w: string, r': string)
    requires t != [] && !InClass(Separator, t[0])
    requires w == t[..RunLength(t, Separator, false)] && |w| < |t|
    requires r' == t[|w|..][RunLength(t[|w|..], Separator, true)..]
    ensures Words(t) == [w] + Words(r')
  {
    var r := t[|w|..];
    assert Words(t) == [w] + Words(r) by {
      WordsOfWordStart(t);
    }
    WordsAfterSeparators(r);
  }

  lemma JoinWordsThenTail(w: string, ws: seq<string>, tail: string)
    requires ws != []
    ensures JoinWords([w] + ws) + tail == w + (" " + (JoinWords(ws) + tail))
  {
    assert JoinWords([w] + ws) == w + " " + JoinWords(ws) by {
      assert ([w] + ws)[0] == w && ([w] + ws)[1..] == ws;
    }
    var j := JoinWords(ws);
    ConcatAssociative(" ", j, tail);
    ConcatAssociative(w, " " + j, tail);
    ConcatAssociative(w, " ", j);
  }

  lemma {:induction false} JoinedWordsNormal(ws: seq<string>)
    requires forall j | 0 <= j < |ws| :: IsWord(ws[j])
    ensures IsNormalTitle(JoinWords(ws))
    ensures ws != [] ==> JoinWords(ws) != [] && !IsWhitespace(JoinWords(ws)[0])
    ensures ws != [] ==> !IsWhitespace(JoinWords(ws)[|JoinWords(ws)| - 1])
    decreases |ws|
  {
    if |ws| == 1 {
      assert IsWord(ws[0]);
    } else if |ws| > 1 {
      var w, j := ws[0], JoinWords(ws[1..]);
      assert IsWord(w);
      JoinedWordsNormal(ws[1..]);
      var t := w + " " + j;
      assert JoinWords(ws) == t;
      forall i | 0 <= i < |t|
        ensures t[i] != '-' && t[i] != '_'
        ensures IsWhitespace(t[i]) ==>
          t[i] == ' ' && 0 < i < |t| - 1 && !IsWhitespace(t[i - 1]) && !IsWhitespace(t[i + 1])
      {
        if i < |w| {
          assert t[i] == w[i];
        } else if i == |w| {
          assert t[i] == ' ';
          assert t[i - 1] == w[|w| - 1];
          assert t[i + 1] == j[0];
        } else {
          assert t[i] == j[i - |w| - 1];
          assert i + 1 < |t| ==> t[i + 1] == j[i - |w|];
          assert t[i - 1] == (if i - 1 == |w| then ' ' else j[i - |w| - 2]);
        }
      }
      assert t[0] == w[0];
      assert t[|t| - 1] == j[|j| - 1];
    }
  }

  // ---------------------------------------------------------------------------
  // Splitting into words, piece by piece, and the words/join round trip.

  /** Separators in front of a word are skipped. */
  lemma WordsAfterLeadingSeparators(sep: string, rest: string)
    requires forall i | 0 <= i < |sep| :: InClass(Separator, sep[i])
    requires rest == [] || !InClass(Separator, rest[0])
    ensures Words(sep + rest) == Words(rest)
  {
    var s := sep + rest;
    RunLengthIs(s, Separator, true, |sep|);
    assert s[|sep|..] == rest;
    RunLengthIs(rest, Separator, true, 0);
    assert rest[0..] == rest;
  }

  /** A word followed by separators is the first word. */
  lemma WordsAfterWord(w: string, sep: string, rest: string)
    requires IsWord(w) && sep != []
    requires forall i | 0 <= i < |sep| :: InClass(Separator, sep[i])
    requires rest == [] || !InClass(Separator, rest[0])
    ensures Words(w + sep + rest) == [w] + Words(rest)
  {
    var s := w + (sep + rest);
    assert w + sep + rest == s;
    assert s[|w|] == sep[0];
    RunLengthIs(s, Separator, false, |w|);
    WordsOfWordStart(s);
    assert s[..|w|] == w && s[|w|..] == sep + rest;
    WordsAfterLeadingSeparators(sep, rest);
  }

  /** A lone word is its only word. */
  lemma WordsOfWord(w: string)
    requires IsWord(w)
    ensures Words(w) == [w]
  {
    RunLengthIs(w, Separator, false, |w|);
    WordsOfWordStart(w);
    assert w[..|w|] == w;
    assert w[|w|..] == [];
  }

  lemma JoinWordsHead(ws: seq<string>)
    requires ws != [] && ws[0] != []
    ensures JoinWords(ws) != [] && JoinWords(ws)[0] == ws[0][0]
  {
  }

  /** Joining words with single spaces and splitting the result again gives
      the words back, so the title determines its words. */
  lemma {:induction false} WordsOfJoin(ws: seq<string>)
    requires forall j | 0 <= j < |ws| :: IsWord(ws[j])
    ensures Words(JoinWords(ws)) == ws
    decreases |ws|
  {
    if ws == [] {
      assert Words([]) == [];
    } else if |ws| == 1 {
      WordsOfWord(ws[0]);
    } else {
      var rest := JoinWords(ws[1..]);
      assert ws == [ws[0]] + ws[1..];
      assert JoinWords(ws) == ws[0] + " " + rest;
      assert Words(rest) == ws[1..] by {
        WordsOfJoin(ws[1..]);
      }
      assert Words(ws[0] + " " + rest) == [ws[0]] + Words(rest) by {
        assert IsWord(ws[0]) && IsWord(ws[1]);
        JoinWordsHead(ws[1..]);
        WordsAfterWord(ws[0], " ", rest);
      }
    }
  }

  // ---------------------------------------------------------------------------
  // Titles of names built from words.

  /** A non-empty run of separator characters. */
  predicate IsSeparatorRun(sep: string) {
    sep != [] && forall i | 0 <= i < |sep| :: InClass(Separator, sep[i])
  }

  /** The title of a name with one extension is the stem's words joined with
      single spaces. */
  lemma TitleOfSingleExtension(stem: string, ext: string)
    requires ext != [] && '.' !in ext && '/' !in ext
    ensures TitleFromFilename(stem + "." + ext) == JoinWords(Words(stem))
  {
    StripSingleExtension(stem, ext);
  }

  /** Two words with any separator run between them. */
  lemma TwoWords(a: string, sep: string, b: string)
    requires IsWord(a) && IsWord(b) && IsSeparatorRun(sep)
    ensures Words(a + sep + b) == [a, b]
  {
    WordsOfWord(b);
    WordsAfterWord(a, sep, b);
  }

  /** A name of two words keeps them, one space apart, whatever separates them. */
  lemma TwoWordTitle(a: string, sep: string, b: string, ext: string)
    requires IsWord(a) && IsWord(b) && IsSeparatorRun(sep)
    requires ext != [] && '.' !in ext && '/' !in ext
    ensures TitleFromFilename(a + sep + b + "." + ext) == a + " " + b
  {
    TitleOfSingleExtension(a + sep + b, ext);
    TwoWords(a, sep, b);
    assert [a, b][1..] == [b];
  }

  /** Three words with any separator runs between them. */
  lemma ThreeWords(a: string, sep1: string, b: string, sep2: string, c: string)
    requires IsWord(a) && IsWord(b) && IsWord(c)
    requires IsSeparatorRun(sep1) && IsSeparatorRun(sep2)
    ensures Words(a + sep1 + b + sep2 + c) == [a, b, c]
  {
    var tail := b + sep2 + c;
    assert a + sep1 + b + sep2 + c == a + sep1 + tail;
    assert Words(tail) == [b, c] by {
      TwoWords(b, sep2, c);
    }
    assert Words(a + sep1 + tail) == [a] + Words(tail) by {
      assert tail[0] == b[0];
      WordsAfterWord(a, sep1, tail);
    }
    assert [a] + [b, c] == [a, b, c];
  }

  lemma JoinThreeWords(a: string, b: string, c: string)
    ensures JoinWords([a, b, c]) == a + " " + b + " " + c
  {
    assert [a, b, c][1..] == [b, c];
    assert [b, c][1..] == [c];
    assert JoinWords([b, c]) == b + " " + c;
    assert JoinWords([a, b, c]) == a + " " + (b + " " + c);
  }

  /** A name of three words keeps them, one space apart, whatever separates them. */
  lemma ThreeWordTitle(a: string, sep1: string, b: string, sep2: string, c: string, ext: string)
    requires IsWord(a) && IsWord(b) && IsWord(c)
    requires IsSeparatorRun(sep1) && IsSeparatorRun(sep2)
    requires ext != [] && '.' !in ext && '/' !in ext
    ensures TitleFromFilename(a + sep1 + b + sep2 + c + "." + ext) == a + " " + b + " " + c
  {
    TitleOfSingleExtension(a + sep1 + b + sep2 + c, ext);
    ThreeWords(a, sep1, b, sep2, c);
    JoinThreeWords(a, b, c);
  }
}
