/** In-place removal of dot segments from a URI path. */
module Uri {
  import opened Bytes

  // ------------------------------------------------- section 5.2.4 of RFC 3986

  /** Position of the first `/` at or after `i`, or the end. */
  function NextSlash(s: bytes, i: nat): (j: nat)
    requires i <= |s|
    ensures i <= j <= |s|
    ensures j < |s| ==> s[j] == SOLIDUS
    ensures forall k :: i <= k < j ==> s[k] != SOLIDUS
    decreases |s| - i
  {
    if i == |s| || s[i] == SOLIDUS then i else NextSlash(s, i + 1)
  }

  lemma NextSlashIs(s: bytes, i: nat, j: nat)
    requires i <= j <= |s| && (j < |s| ==> s[j] == SOLIDUS) && forall k :: i <= k < j ==> s[k] != SOLIDUS
    ensures NextSlash(s, i) == j
    decreases j - i
  {
    if i < j {
      NextSlashIs(s, i + 1, j);
    }
  }

  /** The output without its last segment and the `/` before it. */
  function WithoutLast(out: bytes): (r: bytes)
    ensures |r| <= |out|
  {
    if out == [] then []
    else if out[|out| - 1] == SOLIDUS then out[..|out| - 1]
    else WithoutLast(out[..|out| - 1])
  }

  /** The input begins with `/./`, or is `/.` */
  predicate SlashDot(s: bytes) {
    |s| >= 2 && s[0] == SOLIDUS && s[1] == DOT && (|s| == 2 || s[2] == SOLIDUS)
  }

  /** The input begins with `/../`, or is `/..` */
  predicate SlashDotDot(s: bytes) {
    |s| >= 3 && s[0] == SOLIDUS && s[1] == DOT && s[2] == DOT && (|s| == 3 || s[3] == SOLIDUS)
  }

  /** Steps 2A to 2E: the input buffer is consumed, the output buffer grows. */
  function RemoveDots(input: bytes, out: bytes): bytes
    decreases |input|
  {
    if input == [] then out
    else if |input| >= 3 && input[0] == DOT && input[1] == DOT && input[2] == SOLIDUS then RemoveDots(input[3..], out)
    else if |input| >= 2 && input[0] == DOT && input[1] == SOLIDUS then RemoveDots(input[2..], out)
    else if SlashDot(input) then RemoveDots(if |input| == 2 then [SOLIDUS] else input[2..], out)
    else if SlashDotDot(input) then RemoveDots(if |input| == 3 then [SOLIDUS] else input[3..], WithoutLast(out))
    else if input == [DOT] || input == [DOT, DOT] then out
    else
      var n := NextSlash(input, 1);
      RemoveDots(input[n..], out + input[..n])
  }

  // ---------------------------------------------------------- one step at a time

  /** The input of the standard's algorithm when the code stands at `pos`: one slash and what follows. */
  function Input(path: bytes, pos: nat): bytes
    requires pos <= |path|
  {
    [SOLIDUS] + path[pos..]
  }

  predicate DotSegment(path: bytes, pos: nat, n: nat)
    requires pos <= n <= |path|
  {
    n == pos + 1 && path[pos] == DOT
  }

  predicate DotDotSegment(path: bytes, pos: nat, n: nat)
    requires pos <= n <= |path|
  {
    n == pos + 2 && path[pos] == DOT && path[pos + 1] == DOT
  }

  /** The segment at `pos` decides which step the standard takes. */
  lemma WhichStep(path: bytes, pos: nat, n: nat)
    requires pos <= n <= |path| && n == NextSlash(path, pos)
    ensures SlashDot(Input(path, pos)) <==> DotSegment(path, pos, n)
    ensures SlashDotDot(Input(path, pos)) <==> DotDotSegment(path, pos, n)
  {
    var input := Input(path, pos);
    if SlashDot(input) {
      assert |input| > 2 ==> input[2] == path[pos + 1];
      NextSlashIs(path, pos, pos + 1);
    }
    if SlashDotDot(input) {
      assert input[2] == path[pos + 1];
      assert |input| > 3 ==> input[3] == path[pos + 2];
      NextSlashIs(path, pos, pos + 2);
    }
  }

  /** A `.` segment: the output stays. */
  lemma DotStep(path: bytes, pos: nat, n: nat, out: bytes)
    requires pos <= n <= |path| && n == NextSlash(path, pos) && DotSegment(path, pos, n)
    ensures RemoveDots(Input(path, pos), out) == RemoveDots(if n < |path| then Input(path, n + 1) else [SOLIDUS], out)
  {
    hide SlashDot, SlashDotDot;
    WhichStep(path, pos, n);
    var input := Input(path, pos);
    assert input[0] == SOLIDUS;
    if n < |path| {
      assert input[2..] == Input(path, n + 1);
    }
  }

  /** A `..` segment: the output loses its last segment. */
  lemma DotDotStep(path: bytes, pos: nat, n: nat, out: bytes)
    requires pos <= n <= |path| && n == NextSlash(path, pos) && DotDotSegment(path, pos, n)
    ensures RemoveDots(Input(path, pos), out) ==
      RemoveDots(if n < |path| then Input(path, n + 1) else [SOLIDUS], WithoutLast(out))
  {
    hide SlashDot, SlashDotDot;
    WhichStep(path, pos, n);
    var input := Input(path, pos);
    assert input[0] == SOLIDUS;
    if n < |path| {
      assert input[3..] == Input(path, n + 1);
    }
  }

  /** Any other segment moves to the output. */
  lemma SegmentStep(path: bytes, pos: nat, n: nat, out: bytes)
    requires pos <= n <= |path| && n == NextSlash(path, pos)
    requires !DotSegment(path, pos, n) && !DotDotSegment(path, pos, n)
    ensures RemoveDots(Input(path, pos), out) ==
      RemoveDots(if n < |path| then Input(path, n + 1) else [], out + [SOLIDUS] + path[pos..n])
  {
    hide SlashDot, SlashDotDot, RemoveDots, DotSegment, DotDotSegment, NextSlash;
    WhichStep(path, pos, n);
    InputParts(path, pos, n);
    InputSlash(path, pos, n);
    Associative(out, [SOLIDUS], path[pos..n]);
    hide Input;
    MoveSegment(Input(path, pos), out);
  }

  lemma InputSlash(path: bytes, pos: nat, n: nat)
    requires pos <= n <= |path| && n == NextSlash(path, pos)
    ensures Input(path, pos)[0] == SOLIDUS && NextSlash(Input(path, pos), 1) == n - pos + 1
  {
    var input, m := Input(path, pos), n - pos + 1;
    assert forall k :: 1 <= k < m ==> input[k] == path[pos + k - 1];
    assert n < |path| ==> input[m] == path[n];
    hide NextSlash;
    NextSlashIs(input, 1, m);
  }

  /** Step 2E. */
  lemma MoveSegment(input: bytes, out: bytes)
    requires input != [] && input[0] == SOLIDUS && !SlashDot(input) && !SlashDotDot(input)
    ensures RemoveDots(input, out) == RemoveDots(input[NextSlash(input, 1)..], out + input[..NextSlash(input, 1)])
  {
    hide SlashDot, SlashDotDot, NextSlash;
    assert input != [DOT] && input != [DOT, DOT];
  }

  /** The input up to the segment's end, and what is left of it. */
  lemma InputParts(path: bytes, pos: nat, n: nat)
    requires pos <= n <= |path| && (n < |path| ==> path[n] == SOLIDUS)
    ensures Input(path, pos)[..n - pos + 1] == [SOLIDUS] + path[pos..n]
    ensures Input(path, pos)[n - pos + 1..] == if n < |path| then Input(path, n + 1) else []
  {
    if n < |path| {
      assert path[n..] == [SOLIDUS] + path[n + 1..];
    }
    assert Input(path, pos)[n - pos + 1..] == path[n..];
  }

  /** The standard's algorithm ends a path that ends in a slash with that slash. */
  lemma LastSlash(out: bytes)
    ensures RemoveDots([SOLIDUS], out) == out + [SOLIDUS]
  {
    assert NextSlash([SOLIDUS], 1) == 1;
    assert [SOLIDUS][..1] == [SOLIDUS] && [SOLIDUS][1..] == [];
  }

  // ------------------------------------------------------ nothing left to remove

  /** A path whose segments, each after its slash, are none of them `.` or `..`. */
  predicate Clean(s: bytes)
    decreases |s|
  {
    s == [] || (s[0] == SOLIDUS && !SlashDot(s) && !SlashDotDot(s) && Clean(s[NextSlash(s, 1)..]))
  }

  lemma {:induction false} CleanStays(s: bytes, out: bytes)
    requires Clean(s)
    ensures RemoveDots(s, out) == out + s
    decreases |s|
  {
    if s != [] {
      var n := NextSlash(s, 1);
      CleanStays(s[n..], out + s[..n]);
      Associative(out, s[..n], s[n..]);
      assert s == s[..n] + s[n..];
    } else {
      assert out + s == out;
    }
  }

  /** The first segment is the same whether or not more segments follow. */
  lemma FirstSegment(a: bytes, b: bytes)
    requires a != [] && a[0] == SOLIDUS && (b != [] ==> b[0] == SOLIDUS)
    ensures NextSlash(a + b, 1) == NextSlash(a, 1)
    ensures (a + b)[NextSlash(a, 1)..] == a[NextSlash(a, 1)..] + b
    ensures SlashDot(a + b) <==> SlashDot(a)
    ensures SlashDotDot(a + b) <==> SlashDotDot(a)
  {
    hide NextSlash, SlashDot, SlashDotDot;
    var n, c := NextSlash(a, 1), a + b;
    assert forall k :: 1 <= k < n ==> c[k] == a[k];
    NextSlashIs(c, 1, n);
    SliceConcat(a, b, n);
    SameStart(a, b);
  }

  lemma SliceConcat(a: bytes, b: bytes, n: nat)
    requires n <= |a|
    ensures (a + b)[n..] == a[n..] + b
  {
  }

  lemma SameStart(a: bytes, b: bytes)
    requires a != [] && a[0] == SOLIDUS && (b != [] ==> b[0] == SOLIDUS)
    ensures SlashDot(a + b) <==> SlashDot(a)
    ensures SlashDotDot(a + b) <==> SlashDotDot(a)
  {
    var c := a + b;
    assert |a| > 1 ==> c[1] == a[1];
    assert |a| > 2 ==> c[2] == a[2];
    assert |a| > 3 ==> c[3] == a[3];
  }

  lemma {:induction false} CleanConcat(a: bytes, b: bytes)
    requires (a != [] ==> a[0] == SOLIDUS) && (b != [] ==> b[0] == SOLIDUS)
    ensures Clean(a + b) <==> Clean(a) && Clean(b)
    decreases |a|
  {
    if a == [] {
      assert a + b == b;
    } else {
      hide SlashDot, SlashDotDot;
      FirstSegment(a, b);
      CleanConcat(a[NextSlash(a, 1)..], b);
    }
  }

  lemma {:induction false} WithoutLastSplits(out: bytes) returns (last: bytes)
    requires out != [] ==> out[0] == SOLIDUS
    ensures out == WithoutLast(out) + last && (out != [] ==> last != [] && last[0] == SOLIDUS)
    ensures WithoutLast(out) != [] ==> WithoutLast(out)[0] == SOLIDUS
  {
    if out == [] {
      last := [];
    } else if out[|out| - 1] == SOLIDUS {
      last := [SOLIDUS];
    } else {
      var front, c := out[..|out| - 1], out[|out| - 1];
      assert front != [] && out == front + [c];
      last := WithoutLastSplits(front);
      assert WithoutLast(out) == WithoutLast(front);
      Associative(WithoutLast(front), last, [c]);
      last := last + [c];
      hide WithoutLast;
    }
  }

  lemma {:induction false} ResultClean(input: bytes, out: bytes)
    requires (input != [] ==> input[0] == SOLIDUS) && (out != [] ==> out[0] == SOLIDUS) && Clean(out)
    ensures Clean(RemoveDots(input, out))
    decreases |input|
  {
    hide Clean;
    if input == [] {
    } else if SlashDot(input) {
      ResultClean(if |input| == 2 then [SOLIDUS] else input[2..], out);
    } else if SlashDotDot(input) {
      var last := WithoutLastSplits(out);
      CleanConcat(WithoutLast(out), last);
      ResultClean(if |input| == 3 then [SOLIDUS] else input[3..], WithoutLast(out));
    } else {
      var n := NextSlash(input, 1);
      SegmentClean(input);
      CleanConcat(out, input[..n]);
      ResultClean(input[n..], out + input[..n]);
    }
  }

  lemma SegmentClean(input: bytes)
    requires input != [] && input[0] == SOLIDUS && !SlashDot(input) && !SlashDotDot(input)
    ensures Clean(input[..NextSlash(input, 1)])
  {
    var n := NextSlash(input, 1);
    NextSlashIs(input[..n], 1, n);
  }

  /** Removing the dot segments of an absolute path a second time changes nothing. */
  lemma RemoveDotsTwice(path: bytes)
    requires path != [] && path[0] == SOLIDUS
    ensures RemoveDots(RemoveDots(path, []), []) == RemoveDots(path, [])
  {
    hide Clean;
    var once := RemoveDots(path, []);
    assert Clean([]) by { CleanConcat([], []); EmptyClean(); }
    ResultClean(path, []);
    CleanStays(once, []);
    assert [] + once == once;
  }

  lemma EmptyClean()
    ensures Clean([])
  {
  }

  // ------------------------------------------------------------- the code in place

  /** The C string that starts a buffer: the bytes before its first NUL. */
  function CText(buffer: bytes): (t: bytes)
    ensures 0 !in t && |t| <= |buffer|
  {
    if buffer == [] || buffer[0] == 0 then [] else [buffer[0]] + CText(buffer[1..])
  }

  lemma {:induction false} CTextIs(buffer: bytes, n: nat)
    requires n < |buffer| && buffer[n] == 0 && 0 !in buffer[..n]
    ensures CText(buffer) == buffer[..n]
  {
    if n > 0 {
      assert buffer[0] == buffer[..n][0];
      assert buffer[1..][..n - 1] == buffer[..n][1..];
      CTextIs(buffer[1..], n - 1);
      assert buffer[..n] == [buffer[0]] + buffer[..n][1..];
    } else {
      assert buffer[..n] == [];
    }
  }

  /** The output of the standard once the code has written `written`, which ends in a slash, and stands at `pos`;
      or once it has passed the last segment. */
  ghost predicate Stands(orig: bytes, pos: nat, written: bytes) {
    if pos <= |orig| then
      written != [] && written[0] == SOLIDUS && written[|written| - 1] == SOLIDUS &&
      RemoveDots(Input(orig, pos), written[..|written| - 1]) == RemoveDots(orig, [])
    else
      written == RemoveDots(orig, [])
  }

  lemma FirstStands(orig: bytes)
    requires orig != [] && orig[0] == SOLIDUS
    ensures Stands(orig, 1, [SOLIDUS])
  {
    assert Input(orig, 1) == orig;
    assert [SOLIDUS][..0] == [];
  }

  lemma LastStands(orig: bytes, pos: nat, w: bytes)
    requires pos >= |orig| && Stands(orig, pos, w)
    ensures w == RemoveDots(orig, [])
  {
    if pos == |orig| {
      assert Input(orig, pos) == [SOLIDUS];
      LastSlash(w[..|w| - 1]);
      assert w == w[..|w| - 1] + [SOLIDUS];
    }
  }

  lemma DotStands(orig: bytes, pos: nat, n: nat, w: bytes)
    requires pos <= n <= |orig| && n == NextSlash(orig, pos) && DotSegment(orig, pos, n) && Stands(orig, pos, w)
    ensures Stands(orig, n + 1, w)
  {
    hide RemoveDots, DotSegment, NextSlash, Input;
    DotStep(orig, pos, n, w[..|w| - 1]);
    StandsNext(orig, n, w[..|w| - 1]);
    assert w == w[..|w| - 1] + [SOLIDUS];
  }

  /** Where the code backs up to: after the slash before the last segment, or nowhere when only the first slash is left. */
  predicate BackedUp(w: bytes, l: nat)
    requires w != []
  {
    if |w| == 1 then l == 1
    else 1 <= l < |w| && w[l - 1] == SOLIDUS && forall k :: l <= k < |w| - 1 ==> w[k] != SOLIDUS
  }

  lemma {:induction false} WithoutLastIs(out: bytes, m: nat)
    requires m < |out| && out[m] == SOLIDUS && forall k :: m < k < |out| ==> out[k] != SOLIDUS
    ensures WithoutLast(out) == out[..m]
  {
    if m < |out| - 1 {
      WithoutLastIs(out[..|out| - 1], m);
      assert out[..|out| - 1][..m] == out[..m];
    }
  }

  lemma BackedUpIs(w: bytes, l: nat)
    requires w != [] && w[0] == SOLIDUS && BackedUp(w, l)
    ensures 1 <= l <= |w| && w[..l] == w[..l - 1] + [SOLIDUS] && WithoutLast(w[..|w| - 1]) == w[..l - 1]
  {
    if |w| > 1 {
      WithoutLastIs(w[..|w| - 1], l - 1);
      assert w[..|w| - 1][..l - 1] == w[..l - 1];
    } else {
      assert w[..0] == [];
    }
  }

  lemma DotDotStands(orig: bytes, pos: nat, n: nat, w: bytes, l: nat)
    requires pos <= n <= |orig| && n == NextSlash(orig, pos) && DotDotSegment(orig, pos, n) && Stands(orig, pos, w)
    requires l <= |w| && BackedUp(w, l)
    ensures Stands(orig, n + 1, w[..l])
  {
    hide RemoveDots, DotDotSegment, BackedUp, WithoutLast;
    BackedUpIs(w, l);
    DotDotStep(orig, pos, n, w[..|w| - 1]);
    hide NextSlash, Input;
    StandsNext(orig, n, w[..l - 1]);
  }

  /** Where the standard's algorithm goes on with a slash, or ends with one. */
  lemma StandsNext(orig: bytes, n: nat, out: bytes)
    requires n <= |orig| && (out != [] ==> out[0] == SOLIDUS)
    requires RemoveDots(if n < |orig| then Input(orig, n + 1) else [SOLIDUS], out) == RemoveDots(orig, [])
    ensures Stands(orig, n + 1, out + [SOLIDUS])
  {
    hide RemoveDots, Input;
    var w := out + [SOLIDUS];
    assert w[..|w| - 1] == out;
    if n == |orig| {
      LastSlash(out);
    }
  }

  lemma SegmentStands(orig: bytes, pos: nat, n: nat, w: bytes)
    requires pos <= n <= |orig| && n == NextSlash(orig, pos) && Stands(orig, pos, w)
    requires !DotSegment(orig, pos, n) && !DotDotSegment(orig, pos, n)
    ensures Stands(orig, n + 1, w + orig[pos..n] + if n < |orig| then [SOLIDUS] else [])
  {
    hide DotSegment, DotDotSegment, RemoveDots, NextSlash, Input;
    var out := w[..|w| - 1];
    SegmentStep(orig, pos, n, out);
    assert w == out + [SOLIDUS];
    if n < |orig| {
      StandsNext(orig, n, w + orig[pos..n]);
    } else {
      EmptyInput(w + orig[pos..n]);
      assert w + orig[pos..n] + [] == w + orig[pos..n];
    }
  }

  lemma EmptyInput(out: bytes)
    ensures RemoveDots([], out) == out
  {
  }

  // --------------------------------------------------------- absolute and relative paths

  predicate Absolute(s: bytes) {
    s != [] && s[0] == SOLIDUS
  }

  /** No two slashes stand together. */
  predicate NoEmptySegment(s: bytes) {
    forall k :: 0 < k < |s| ==> s[k - 1] != SOLIDUS || s[k] != SOLIDUS
  }

  /** What is missing before a relative path. */
  function Lead(orig: bytes): bytes {
    if Absolute(orig) then [] else [SOLIDUS]
  }

  /** The paths that are treated as the standard treats them behind a slash. */
  predicate Regular(orig: bytes) {
    Absolute(orig) || NoEmptySegment(orig)
  }

  /** The same segment of the path behind its slash. */
  lemma LedSegment(orig: bytes, pos: nat, n: nat)
    requires pos <= n <= |orig| && n == NextSlash(orig, pos)
    ensures var t, k := Lead(orig) + orig, |Lead(orig)|;
      && NextSlash(t, k + pos) == k + n && t[k + pos..k + n] == orig[pos..n]
      && (DotSegment(t, k + pos, k + n) <==> DotSegment(orig, pos, n))
      && (DotDotSegment(t, k + pos, k + n) <==> DotDotSegment(orig, pos, n))
  {
    hide NextSlash, Lead, DotSegment, DotDotSegment;
    BehindAt(Lead(orig), orig, pos, n);
    SameSegment(Lead(orig) + orig, |Lead(orig)| + pos, |Lead(orig)| + n, orig, pos, n);
  }

  lemma BehindAt(lead: bytes, orig: bytes, pos: nat, n: nat)
    requires pos <= n <= |orig| && n == NextSlash(orig, pos)
    ensures NextSlash(lead + orig, |lead| + pos) == |lead| + n
    ensures (lead + orig)[|lead| + pos..|lead| + n] == orig[pos..n]
  {
    hide NextSlash;
    var t, k := lead + orig, |lead|;
    assert forall i :: k <= i < |t| ==> t[i] == orig[i - k];
    NextSlashIs(t, k + pos, k + n);
  }

  lemma SameSegment(t: bytes, i: nat, j: nat, orig: bytes, pos: nat, n: nat)
    requires i <= j <= |t| && pos <= n <= |orig| && t[i..j] == orig[pos..n]
    ensures DotSegment(t, i, j) <==> DotSegment(orig, pos, n)
    ensures DotDotSegment(t, i, j) <==> DotDotSegment(orig, pos, n)
  {
    assert j - i == |t[i..j]| == n - pos;
    assert j > i ==> t[i..j][0] == t[i] && orig[pos..n][0] == orig[pos];
    assert j > i + 1 ==> t[i..j][1] == t[i + 1] && orig[pos..n][1] == orig[pos + 1];
  }

  lemma SlashFirst(orig: bytes, n: nat)
    requires Absolute(orig) && n == NextSlash(orig, 0)
    ensures n == 0
  {
  }

  lemma LedStart(orig: bytes)
    ensures Stands(Lead(orig) + orig, 1, [SOLIDUS])
  {
    hide Stands;
    FirstStands(Lead(orig) + orig);
  }

  lemma LedDot(orig: bytes, pos: nat, n: nat, w: bytes)
    requires pos <= n <= |orig| && n == NextSlash(orig, pos) && DotSegment(orig, pos, n)
    requires Stands(Lead(orig) + orig, |Lead(orig)| + pos, w)
    ensures Stands(Lead(orig) + orig, |Lead(orig)| + n + 1, w)
  {
    hide Stands, Lead, NextSlash, DotSegment;
    LedSegment(orig, pos, n);
    DotStands(Lead(orig) + orig, |Lead(orig)| + pos, |Lead(orig)| + n, w);
  }

  lemma LedDotDot(orig: bytes, pos: nat, n: nat, w: bytes, l: nat)
    requires pos <= n <= |orig| && n == NextSlash(orig, pos) && DotDotSegment(orig, pos, n)
    requires l <= |w| && Lead(orig) + w != [] && BackedUp(Lead(orig) + w, |Lead(orig)| + l)
    requires Stands(Lead(orig) + orig, |Lead(orig)| + pos, Lead(orig) + w)
    ensures Stands(Lead(orig) + orig, |Lead(orig)| + n + 1, Lead(orig) + w[..l])
  {
    hide Stands, Lead, NextSlash, DotDotSegment, BackedUp;
    LedSegment(orig, pos, n);
    DotDotStands(Lead(orig) + orig, |Lead(orig)| + pos, |Lead(orig)| + n, Lead(orig) + w, |Lead(orig)| + l);
    assert (Lead(orig) + w)[..|Lead(orig)| + l] == Lead(orig) + w[..l];
  }

  lemma LedKept(orig: bytes, pos: nat, n: nat, w: bytes)
    requires pos <= n <= |orig| && n == NextSlash(orig, pos)
    requires !DotSegment(orig, pos, n) && !DotDotSegment(orig, pos, n)
    requires Stands(Lead(orig) + orig, |Lead(orig)| + pos, Lead(orig) + w)
    ensures Stands(Lead(orig) + orig, |Lead(orig)| + n + 1,
                   Lead(orig) + (w + orig[pos..n] + if n < |orig| then [SOLIDUS] else []))
  {
    hide Stands, Lead, NextSlash, DotSegment, DotDotSegment;
    LedSegment(orig, pos, n);
    SegmentStands(Lead(orig) + orig, |Lead(orig)| + pos, |Lead(orig)| + n, Lead(orig) + w);
    var slash := if n < |orig| then [SOLIDUS] else [];
    Associative(Lead(orig), w, orig[pos..n]);
    Associative(Lead(orig), w + orig[pos..n], slash);
  }

  lemma NothingLed(orig: bytes, w: bytes)
    ensures Absolute(orig) ==> Lead(orig) + orig == orig && Lead(orig) + w == w
  {
  }

  lemma LedEnd(orig: bytes, pos: nat, w: bytes)
    requires pos >= |orig| && Stands(Lead(orig) + orig, |Lead(orig)| + pos, Lead(orig) + w)
    ensures Lead(orig) + w == RemoveDots(Lead(orig) + orig, [])
  {
    hide Stands, Lead, RemoveDots;
    LastStands(Lead(orig) + orig, |Lead(orig)| + pos, Lead(orig) + w);
  }

  /** The result of an absolute path is absolute and not empty. */
  lemma {:induction false} AbsoluteStays(input: bytes, out: bytes)
    requires Absolute(input) && (out != [] ==> out[0] == SOLIDUS)
    ensures Absolute(RemoveDots(input, out))
    decreases |input|
  {
    if SlashDot(input) {
      AbsoluteStays(if |input| == 2 then [SOLIDUS] else input[2..], out);
    } else if SlashDotDot(input) {
      var last := WithoutLastSplits(out);
      AbsoluteStays(if |input| == 3 then [SOLIDUS] else input[3..], WithoutLast(out));
    } else {
      var n := NextSlash(input, 1);
      MoveSegment(input, out);
      if n < |input| {
        AbsoluteStays(input[n..], out + input[..n]);
      } else {
        EmptyInput(out + input);
        assert input[..n] == input && input[n..] == [];
      }
    }
  }

  /** The standard makes a slash of the relative path `a/..`, the code nothing: what the standard makes of the path behind
      a slash, without that slash. */
  lemma RelativeInput()
    ensures RemoveDots([0x61, SOLIDUS, DOT, DOT], []) == [SOLIDUS]
    ensures RemoveDots([SOLIDUS, 0x61, SOLIDUS, DOT, DOT], []) == [SOLIDUS]
    ensures Regular([0x61, SOLIDUS, DOT, DOT]) && Lead([0x61, SOLIDUS, DOT, DOT]) == [SOLIDUS]
  {
    var back := [SOLIDUS, DOT, DOT];
    var a, slashA := [0x61] + back, [SOLIDUS, 0x61] + back;
    NextSlashIs(a, 1, 1);
    assert a[1..] == back && [] + a[..1] == [0x61];
    NextSlashIs(slashA, 1, 2);
    assert slashA[2..] == back && [] + slashA[..2] == [SOLIDUS, 0x61];
    assert WithoutLast([0x61][..0]) == [] && WithoutLast([SOLIDUS, 0x61]) == [SOLIDUS, 0x61][..0];
    LastSlash([]);
    assert [] + [SOLIDUS] == [SOLIDUS];
    assert slashA == [SOLIDUS, 0x61, SOLIDUS, DOT, DOT] && a == [0x61, SOLIDUS, DOT, DOT];
  }

  /** The first byte and the last of what is written stay as they should. */
  lemma KeptText(orig: bytes, pathpos: nat, before: bytes, n: nat, text: bytes)
    requires pathpos < |orig| && pathpos <= n == NextSlash(orig, pathpos) && 0 !in orig && 0 !in before
    requires before != [] && Regular(orig) ==> (before[0] == SOLIDUS <==> Absolute(orig))
    requires (pathpos > 0 ==> orig[pathpos - 1] == SOLIDUS) && (pathpos == 0 ==> before == [])
    requires Absolute(orig) && pathpos > 0 ==> before != []
    requires text == before + orig[pathpos..n] + if n < |orig| then [SOLIDUS] else []
    ensures 0 !in text && (n < |orig| ==> text != [] && text[|text| - 1] == SOLIDUS)
    ensures text != [] && Regular(orig) ==> (text[0] == SOLIDUS <==> Absolute(orig))
  {
    if before != [] {
      assert text[0] == before[0];
    } else if n > pathpos {
      assert text[0] == orig[pathpos];
    }
  }

  /** A URI whose path is a NUL-terminated buffer. */
  class UriPath {
    const path: array<byte>

    constructor (buffer: array<byte>)
      ensures path == buffer
    {
      path := buffer;
    }

    /** The length of the segment at `pathpos`, up to the next `/` or the end. */
    method SegmentLength(ghost orig: bytes, pathlen: nat, pathpos: nat) returns (slashpos: nat)
      requires pathpos <= pathlen == |orig| <= path.Length
      requires forall k :: pathpos <= k < pathlen ==> path[k] == orig[k]
      ensures pathpos + slashpos == NextSlash(orig, pathpos)
    {
      slashpos := 0;
      while pathpos + slashpos < pathlen
        invariant pathpos + slashpos <= pathlen
        invariant NextSlash(orig, pathpos) == NextSlash(orig, pathpos + slashpos)
      {
        if path[pathpos + slashpos] == SOLIDUS {
          break;
        }
        slashpos := slashpos + 1;
      }
    }

    /** Where a `..` segment moves the write position. */
    method BackUp(newpos: nat) returns (lastslashpos: nat)
      requires newpos <= path.Length && (newpos == 0 || path[newpos - 1] == SOLIDUS)
      ensures lastslashpos <= newpos && (lastslashpos == 0 || path[lastslashpos - 1] == SOLIDUS)
      ensures newpos > 0 && path[0] == SOLIDUS ==> BackedUp(path[..newpos], lastslashpos)
      ensures newpos > 0 && path[0] != SOLIDUS ==> BackedUp([SOLIDUS] + path[..newpos], lastslashpos + 1)
      ensures newpos == 0 ==> lastslashpos == 0
    {
      lastslashpos := newpos;
      if lastslashpos > 1 {
        lastslashpos := lastslashpos - 1;
        while lastslashpos > 0
          invariant lastslashpos < newpos
          invariant forall k :: lastslashpos <= k < newpos - 1 ==> path[k] != SOLIDUS
        {
          if path[lastslashpos - 1] == SOLIDUS {
            break;
          }
          lastslashpos := lastslashpos - 1;
        }
      }
    }

    /** Overlapping copy towards the front. */
    method MoveDown(to: nat, from: nat, count: nat)
      requires to <= from && from + count <= path.Length
      modifies path
      ensures path[..to + count] == old(path[..to] + path[from..from + count])
      ensures path[from + count..] == old(path[from + count..])
    {
      forall i | 0 <= i < count {
        path[to + i] := path[from + i];
      }
      assert forall k :: to <= k < to + count ==> path[k] == old(path[from + (k - to)]);
    }

    method PathLength() returns (n: nat)
      requires exists n :: 0 <= n < path.Length && path[n] == 0
      ensures n < path.Length && path[n] == 0 && 0 !in path[..n]
    {
      n := 0;
      while path[n] != 0
        invariant n < path.Length && 0 !in path[..n]
        decreases path.Length - n
      {
        n := n + 1;
      }
    }

    /** What holds between two segments. */
    ghost predicate Between(orig: bytes, pathpos: nat, newpos: nat)
      reads path
    {
      newpos <= pathpos <= |orig| + 1 && newpos <= |orig| <= path.Length &&
      0 !in path[..newpos] && (forall k :: pathpos <= k < |orig| ==> path[k] == orig[k]) &&
      (0 < pathpos <= |orig| ==> orig[pathpos - 1] == SOLIDUS) &&
      (pathpos <= |orig| && newpos > 0 ==> path[newpos - 1] == SOLIDUS) &&
      (newpos > 0 && Regular(orig) ==> (path[0] == SOLIDUS <==> Absolute(orig)))
    }

    /** What is written is what the standard has put out. */
    ghost predicate Follows(orig: bytes, pathpos: nat, newpos: nat)
      requires newpos <= path.Length
      reads path
    {
      Regular(orig) && (Absolute(orig) ==> pathpos > 0) ==>
        Stands(Lead(orig) + orig, |Lead(orig)| + pathpos, Lead(orig) + path[..newpos])
    }

    lemma Start(orig: bytes)
      requires |orig| <= path.Length && path[..|orig|] == orig
      ensures Between(orig, 0, 0) && Follows(orig, 0, 0)
    {
      hide Stands;
      LedStart(orig);
      assert path[..0] == [] && [SOLIDUS] + [] == [SOLIDUS];
    }

    lemma DotBetween(orig: bytes, pathpos: nat, newpos: nat, n: nat)
      requires pathpos < |orig| && Between(orig, pathpos, newpos) && pathpos <= n == NextSlash(orig, pathpos)
      requires Follows(orig, pathpos, newpos) && DotSegment(orig, pathpos, n)
      ensures Between(orig, n + 1, newpos) && Follows(orig, n + 1, newpos)
    {
      hide Stands, Lead;
      if Absolute(orig) && pathpos == 0 {
        SlashFirst(orig, n);
      } else if Regular(orig) {
        LedDot(orig, pathpos, n, Lead(orig) + path[..newpos]);
      }
    }

    lemma DotDotBetween(orig: bytes, pathpos: nat, newpos: nat, n: nat, l: nat)
      requires pathpos < |orig| && Between(orig, pathpos, newpos) && pathpos <= n == NextSlash(orig, pathpos)
      requires Follows(orig, pathpos, newpos) && DotDotSegment(orig, pathpos, n)
      requires l <= newpos && (l == 0 || path[l - 1] == SOLIDUS)
      requires newpos > 0 && path[0] == SOLIDUS ==> BackedUp(path[..newpos], l)
      requires newpos > 0 && path[0] != SOLIDUS ==> BackedUp([SOLIDUS] + path[..newpos], l + 1)
      ensures Between(orig, n + 1, l) && Follows(orig, n + 1, l)
    {
      hide Stands, BackedUp;
      assert path[..newpos][..l] == path[..l];
      if Absolute(orig) && pathpos == 0 {
        SlashFirst(orig, n);
      } else if Regular(orig) {
        BackedUpBehind(orig, pathpos, newpos, l);
        LedDotDot(orig, pathpos, n, path[..newpos], l);
      }
    }

    lemma BackedUpBehind(orig: bytes, pathpos: nat, newpos: nat, l: nat)
      requires 0 <= pathpos < |orig| && Between(orig, pathpos, newpos) && Follows(orig, pathpos, newpos) && Regular(orig)
      requires (Absolute(orig) ==> pathpos > 0) && l <= newpos
      requires newpos > 0 && path[0] == SOLIDUS ==> BackedUp(path[..newpos], l)
      requires newpos > 0 && path[0] != SOLIDUS ==> BackedUp([SOLIDUS] + path[..newpos], l + 1)
      ensures Lead(orig) + path[..newpos] != [] && BackedUp(Lead(orig) + path[..newpos], |Lead(orig)| + l)
    {
      hide Stands, Regular, BackedUp;
      if Absolute(orig) {
        WrittenStarts(orig, pathpos, newpos);
        assert [] + path[..newpos] == path[..newpos];
      } else if newpos == 0 {
        NothingWritten();
        assert [SOLIDUS] + path[..0] == [SOLIDUS];
      }
    }

    lemma NothingWritten()
      ensures BackedUp([SOLIDUS], 1)
    {
    }

    /** An absolute path has a slash in the new path as soon as its first segment is read. */
    lemma WrittenStarts(orig: bytes, pathpos: nat, newpos: nat)
      requires Between(orig, pathpos, newpos) && Follows(orig, pathpos, newpos) && Absolute(orig) && 0 < pathpos <= |orig|
      ensures newpos > 0
    {
      assert Lead(orig) + orig == orig;
    }

    /** Moves the segment, and its slash when it has one, to the new path. */
    method KeepSegment(ghost orig: bytes, pathlen: nat, pathpos: nat, newpos: nat, slashpos: nat) returns (next: nat)
      requires pathlen == |orig| && pathpos < pathlen && Between(orig, pathpos, newpos)
      requires pathpos + slashpos == NextSlash(orig, pathpos) && 0 !in orig
      modifies path
      ensures next <= pathpos + slashpos + 1 && next <= pathlen
      ensures path[..next] ==
        old(path[..newpos]) + orig[pathpos..pathpos + slashpos] + if pathpos + slashpos < pathlen then [SOLIDUS] else []
      ensures forall k :: pathpos + slashpos + 1 <= k < path.Length ==> path[k] == old(path[k])
    {
      hide NextSlash;
      assert newpos <= pathpos;
      assert path[pathpos..pathpos + slashpos] == orig[pathpos..pathpos + slashpos];
      MoveDown(newpos, pathpos, slashpos);
      next := newpos + slashpos;
      assert path[..next] == old(path[..newpos]) + orig[pathpos..pathpos + slashpos];
      assert forall k :: pathpos + slashpos <= k < path.Length ==>
        path[k] == path[pathpos + slashpos..][k - pathpos - slashpos] == old(path[k]);
      if pathpos + slashpos < pathlen {
        path[next] := SOLIDUS;
        next := next + 1;
      }
    }

    /** After a segment was kept. */
    lemma KeptBetween(orig: bytes, pathpos: nat, before: bytes, n: nat, next: nat)
      requires pathpos < |orig| <= path.Length && pathpos <= n == NextSlash(orig, pathpos) && 0 !in orig && 0 !in before
      requires !DotSegment(orig, pathpos, n) && !DotDotSegment(orig, pathpos, n)
      requires pathpos > 0 ==> orig[pathpos - 1] == SOLIDUS
      requires before != [] && Regular(orig) ==> (before[0] == SOLIDUS <==> Absolute(orig))
      requires Regular(orig) && (Absolute(orig) ==> pathpos > 0) ==>
        Stands(Lead(orig) + orig, |Lead(orig)| + pathpos, Lead(orig) + before)
      requires (pathpos == 0 ==> before == []) && (Absolute(orig) && pathpos > 0 ==> before != [])
      requires next <= n + 1 && next <= |orig| && forall k :: n + 1 <= k < |orig| ==> path[k] == orig[k]
      requires path[..next] == before + orig[pathpos..n] + if n < |orig| then [SOLIDUS] else []
      ensures Between(orig, n + 1, next) && Follows(orig, n + 1, next)
    {
      hide Stands, NextSlash, DotSegment, DotDotSegment;
      var slash := if n < |orig| then [SOLIDUS] else [];
      var text := before + orig[pathpos..n] + slash;
      KeptText(orig, pathpos, before, n, text);
      assert next == |text| && forall k :: 0 <= k < next ==> path[k] == text[k];
      assert 0 !in path[..next];
      if Regular(orig) {
        if Absolute(orig) && pathpos == 0 {
          assert n == 0 by { NextSlashIs(orig, 0, 0); }
          LedStart(orig);
          assert text == [SOLIDUS] && [] + text == text;
        } else {
          LedKept(orig, pathpos, n, before);
        }
      }
    }

    /**
     * For an absolute path, the result is that of section 5.2.4 of RFC 3986; for a relative one without empty segments, it
     * is that of the path behind a slash, less this slash. Both of the code's assertions hold on every path, and the
     * bytes after the old path stay.
     */
    method RemoveDotSegments()
      requires exists n :: 0 <= n < path.Length && path[n] == 0
      modifies path
      ensures exists n :: 0 <= n < path.Length && path[n] == 0
      ensures forall k :: old(|CText(path[..])|) < k < path.Length ==> path[k] == old(path[k])
      ensures var orig := old(CText(path[..]));
        && (Absolute(orig) ==> CText(path[..]) == RemoveDots(orig, []))
        && (!Absolute(orig) && NoEmptySegment(orig) ==> [SOLIDUS] + CText(path[..]) == RemoveDots([SOLIDUS] + orig, []))
    {
      hide Stands, RemoveDots, Between, Follows;
      var pathlen := PathLength();
      ghost var orig := path[..pathlen];
      CTextIs(path[..], pathlen);
      assert path[..][..pathlen] == orig;
      Start(orig);
      var newpos := RemoveSegments(orig, pathlen);
      path[newpos] := 0;
      CTextIs(path[..], newpos);
      assert path[..][..newpos] == path[..newpos];
      NothingLed(orig, path[..newpos]);
    }

    method RemoveSegments(ghost orig: bytes, pathlen: nat) returns (newpos: nat)
      requires pathlen == |orig| < path.Length && 0 !in orig && Between(orig, 0, 0) && Follows(orig, 0, 0)
      modifies path
      ensures newpos <= pathlen && 0 !in path[..newpos]
      ensures forall k :: pathlen < k < path.Length ==> path[k] == old(path[k])
      ensures Regular(orig) ==> Lead(orig) + path[..newpos] == RemoveDots(Lead(orig) + orig, [])
    {
      hide Stands, RemoveDots, Regular, Follows, NextSlash, BackedUp, Lead;
      var pathpos: nat := 0;
      newpos := 0;
      while pathpos < pathlen
        invariant Between(orig, pathpos, newpos) && Follows(orig, pathpos, newpos)
        invariant forall k :: pathlen < k < path.Length ==> path[k] == old(path[k])
      {
        var slashpos := SegmentLength(orig, pathlen, pathpos);
        if slashpos == 2 && path[pathpos] == DOT && path[pathpos + 1] == DOT {
          assert newpos == 0 || path[newpos - 1] == SOLIDUS;
          var lastslashpos := BackUp(newpos);
          DotDotBetween(orig, pathpos, newpos, pathpos + slashpos, lastslashpos);
          newpos := lastslashpos;
        } else if slashpos == 1 && path[pathpos] == DOT {
          DotBetween(orig, pathpos, newpos, pathpos + slashpos);
        } else {
          newpos := NextKept(orig, pathlen, pathpos, newpos, slashpos);
        }
        pathpos := pathpos + slashpos + 1;
      }
      EndFollows(orig, pathpos, newpos);
    }

    lemma EndFollows(orig: bytes, pathpos: nat, newpos: nat)
      requires newpos <= path.Length && pathpos >= |orig| && Follows(orig, pathpos, newpos)
      requires Absolute(orig) ==> pathpos > 0
      ensures Regular(orig) ==> Lead(orig) + path[..newpos] == RemoveDots(Lead(orig) + orig, [])
    {
      hide Stands, RemoveDots, Lead;
      if Regular(orig) {
        LedEnd(orig, pathpos, path[..newpos]);
      }
    }

    method NextKept(ghost orig: bytes, pathlen: nat, pathpos: nat, newpos: nat, slashpos: nat) returns (next: nat)
      requires pathlen == |orig| && pathpos < pathlen && Between(orig, pathpos, newpos) && Follows(orig, pathpos, newpos)
      requires pathpos + slashpos == NextSlash(orig, pathpos) && 0 !in orig
      requires !DotSegment(orig, pathpos, pathpos + slashpos) && !DotDotSegment(orig, pathpos, pathpos + slashpos)
      modifies path
      ensures Between(orig, pathpos + slashpos + 1, next) && Follows(orig, pathpos + slashpos + 1, next)
      ensures forall k :: pathpos + slashpos + 1 <= k < path.Length ==> path[k] == old(path[k])
    {
      hide Stands, Lead, NextSlash, DotSegment, DotDotSegment;
      ghost var before := path[..newpos];
      assert before != [] ==> before[0] == path[0];
      if Absolute(orig) && pathpos > 0 {
        WrittenStarts(orig, pathpos, newpos);
      }
      next := KeepSegment(orig, pathlen, pathpos, newpos, slashpos);
      KeptBetween(orig, pathpos, before, pathpos + slashpos, next);
    }
  }
}
