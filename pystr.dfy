/** The parts of Python's `str` that the barge-in classifier relies on:
    `lower()`, `strip()`, `split()` with no argument, and the substring test
    `w in t`, on Dafny strings (`seq<char>`, one element per code point). */
module PyStr {

  /** Python's `str.isspace` for one code point: the set that `strip()` and
      `split()` treat as whitespace (the ASCII controls 9-13 and 28-31, the
      space, and the Unicode separators). */
  predicate IsSpace(c: char) {
    var n := c as int;
    || (0x09 <= n <= 0x0D)
    || (0x1C <= n <= 0x20)
    || n == 0x85 || n == 0xA0 || n == 0x1680
    || (0x2000 <= n <= 0x200A)
    || n == 0x2028 || n == 0x2029 || n == 0x202F || n == 0x205F || n == 0x3000
  }

  predicate AllSpace(s: string) {
    forall i :: 0 <= i < |s| ==> IsSpace(s[i])
  }

  predicate NoSpace(s: string) {
    forall i :: 0 <= i < |s| ==> !IsSpace(s[i])
  }

  // ---------------------------------------------------------------------
  // lower()
  // ---------------------------------------------------------------------

  /** ASCII case mapping: `A`-`Z` become `a`-`z`, everything else is kept. */
  function LowerChar(c: char): (d: char)
    ensures 'A' <= c <= 'Z' ==> d as int == c as int + 32
    ensures !('A' <= c <= 'Z') ==> d == c
    ensures !('A' <= d <= 'Z')
  {
    if 'A' <= c <= 'Z' then (c as int + 32) as char else c
  }

  /** `s.lower()`: the same length, each code point case-mapped in place. */
  function Lower(s: string): (r: string)
    ensures |r| == |s|
    ensures forall i :: 0 <= i < |s| ==> r[i] == LowerChar(s[i])
  {
    if s == [] then [] else [LowerChar(s[0])] + Lower(s[1..])
  }

  lemma LowerIdempotent(s: string)
    ensures Lower(Lower(s)) == Lower(s)
  {
  }

  /** Case mapping never turns whitespace into non-whitespace or back. */
  lemma LowerKeepsSpace(s: string)
    ensures forall i :: 0 <= i < |s| ==> (IsSpace(Lower(s)[i]) <==> IsSpace(s[i]))
  {
  }

  lemma LowerConcat(a: string, b: string)
    ensures Lower(a + b) == Lower(a) + Lower(b)
  {
    assert forall i :: 0 <= i < |a + b| ==> Lower(a + b)[i] == (Lower(a) + Lower(b))[i];
  }

  lemma LowerAllSpace(s: string)
    requires AllSpace(s)
    ensures Lower(s) == s
  {
  }

  // ---------------------------------------------------------------------
  // strip()
  // ---------------------------------------------------------------------

  /** Scanning forward from `i`: the first index that does not hold
      whitespace, or `|s|`. */
  function SkipSpace(s: string, i: nat): (j: nat)
    requires i <= |s|
    ensures i <= j <= |s|
    ensures j < |s| ==> !IsSpace(s[j])
    decreases |s| - i
  {
    if i < |s| && IsSpace(s[i]) then SkipSpace(s, i + 1) else i
  }

  /** Scanning backward from `j` but never below `lo`: the end of `s[lo..j]`
      once its trailing whitespace is cut. */
  function BackSpace(s: string, lo: nat, j: nat): (k: nat)
    requires lo <= j <= |s|
    ensures lo <= k <= j
    ensures lo < k ==> !IsSpace(s[k - 1])
    decreases j
  {
    if lo < j && IsSpace(s[j - 1]) then BackSpace(s, lo, j - 1) else j
  }

  /** `s.strip()`: skip the leading whitespace, then cut the trailing
      whitespace of what is left. */
  function Strip(s: string): string
  {
    var i := SkipSpace(s, 0);
    s[i..BackSpace(s, i, |s|)]
  }

  /** Everything `SkipSpace` passes over is whitespace. */
  lemma {:induction false} SkipSpaceRun(s: string, i: nat, k: nat)
    requires i <= |s| && i <= k < SkipSpace(s, i)
    ensures IsSpace(s[k])
    decreases |s| - i
  {
    if i < k {
      SkipSpaceRun(s, i + 1, k);
    }
  }

  /** Everything `BackSpace` passes over is whitespace. */
  lemma {:induction false} BackSpaceRun(s: string, lo: nat, j: nat, k: nat)
    requires lo <= j <= |s| && BackSpace(s, lo, j) <= k < j
    ensures IsSpace(s[k])
    decreases j
  {
    if k < j - 1 {
      BackSpaceRun(s, lo, j - 1, k);
    }
  }

  /** Over all-whitespace text the forward scan runs to the end. */
  lemma {:induction false} AllSpaceSkip(s: string, i: nat)
    requires i <= |s| && AllSpace(s)
    ensures SkipSpace(s, i) == |s|
    decreases |s| - i
  {
    if i < |s| {
      AllSpaceSkip(s, i + 1);
    }
  }

  /** `r` is what is left of `s` once a whitespace-only prefix of length `i`
      and a whitespace-only suffix are cut off. */
  predicate Trims(s: string, r: string, i: int) {
    && 0 <= i && i + |r| <= |s| && r == s[i..i + |r|]
    && (forall k :: 0 <= k < i ==> IsSpace(s[k]))
    && (forall k :: i + |r| <= k < |s| ==> IsSpace(s[k]))
  }

  /** What `strip()` keeps is a slice of `s` with only whitespace cut from
      either side, and it neither starts nor ends with whitespace. */
  lemma StripShape(s: string)
    ensures exists i :: Trims(s, Strip(s), i)
    ensures Strip(s) != [] ==> !IsSpace(Strip(s)[0]) && !IsSpace(Strip(s)[|Strip(s)| - 1])
  {
    var i := SkipSpace(s, 0);
    var j := BackSpace(s, i, |s|);
    StripSlice(s, i, j);
    LeadingRun(s);
    TrailingRun(s, i);
    assert Trims(s, Strip(s), i);
  }

  lemma LeadingRun(s: string)
    ensures forall k :: 0 <= k < SkipSpace(s, 0) ==> IsSpace(s[k])
  {
    forall k | 0 <= k < SkipSpace(s, 0) ensures IsSpace(s[k]) {
      SkipSpaceRun(s, 0, k);
    }
  }

  lemma TrailingRun(s: string, i: nat)
    requires i <= |s|
    ensures forall k :: BackSpace(s, i, |s|) <= k < |s| ==> IsSpace(s[k])
  {
    forall k | BackSpace(s, i, |s|) <= k < |s| ensures IsSpace(s[k]) {
      BackSpaceRun(s, i, |s|, k);
    }
  }

  lemma StripSlice(s: string, i: nat, j: nat)
    requires i == SkipSpace(s, 0) && j == BackSpace(s, i, |s|)
    ensures Strip(s) == s[i..j] && |Strip(s)| == j - i
    ensures i < j ==> Strip(s)[0] == s[i] && Strip(s)[j - i - 1] == s[j - 1]
  {
  }

  /** `x` stands in `s` from index `p` on, code point by code point. */
  predicate Embeds(s: string, x: string, p: nat) {
    p + |x| <= |s| && forall k :: 0 <= k < |x| ==> s[p + k] == x[k]
  }

  /** A concatenation embeds both of its parts. */
  lemma ConcatEmbeds(a: string, b: string)
    ensures Embeds(a + b, a, 0) && Embeds(a + b, b, |a|)
  {
    assert forall k :: 0 <= k < |a| ==> (a + b)[k] == a[k];
    assert forall k :: 0 <= k < |b| ==> (a + b)[|a| + k] == b[k];
  }

  /** An embedded slice is a slice of the embedding string. */
  lemma EmbedsSlice(s: string, x: string, p: nat, i: nat, j: nat)
    requires Embeds(s, x, p) && i <= j <= |x|
    ensures s[p + i..p + j] == x[i..j]
  {
    forall k | 0 <= k < j - i ensures s[p + i..p + j][k] == x[i..j][k] {
      assert s[p + i + k] == x[i + k];
    }
  }

  /** Over a whitespace run the forward scan keeps going. */
  lemma {:induction false} SkipSpaceOver(s: string, i: nat, m: nat)
    requires i <= m <= |s| && forall k :: i <= k < m ==> IsSpace(s[k])
    ensures SkipSpace(s, i) == SkipSpace(s, m)
    decreases m - i
  {
    if i < m {
      SkipSpaceOver(s, i + 1, m);
    }
  }

  /** The forward scan of an embedded string is the forward scan of the
      embedding one, shifted, as long as it stops inside the embedded part
      or that part runs to the end. */
  lemma {:induction false} SkipSpaceEmbeds(s: string, x: string, p: nat, i: nat)
    requires Embeds(s, x, p) && i <= |x|
    requires SkipSpace(x, i) < |x| || p + |x| == |s|
    ensures SkipSpace(s, p + i) == p + SkipSpace(x, i)
    decreases |x| - i
  {
    if i < |x| {
      assert s[p + i] == x[i];
      if IsSpace(x[i]) {
        SkipSpaceEmbeds(s, x, p, i + 1);
      }
    }
  }

  /** Over a whitespace run the backward scan keeps going. */
  lemma {:induction false} BackSpaceOver(s: string, lo: nat, m: nat, j: nat)
    requires lo <= m <= j <= |s| && forall k :: m <= k < j ==> IsSpace(s[k])
    ensures BackSpace(s, lo, j) == BackSpace(s, lo, m)
    decreases j
  {
    if m < j {
      BackSpaceOver(s, lo, m, j - 1);
    }
  }

  /** The backward scan of an embedded string is the backward scan of the
      embedding one, shifted. */
  lemma {:induction false} BackSpaceEmbeds(s: string, x: string, p: nat, lo: nat, j: nat)
    requires Embeds(s, x, p) && lo <= j <= |x|
    ensures BackSpace(s, p + lo, p + j) == p + BackSpace(x, lo, j)
    decreases j
  {
    if lo < j {
      assert s[p + j - 1] == x[j - 1];
      BackSpaceEmbeds(s, x, p, lo, j - 1);
    }
  }

  /** `s` is `x` with whitespace on either side. */
  predicate Framed(s: string, x: string, p: nat) {
    && Embeds(s, x, p)
    && (forall k :: 0 <= k < p ==> IsSpace(s[k]))
    && (forall k :: p + |x| <= k < |s| ==> IsSpace(s[k]))
  }

  /** Whitespace placed around a string does not survive `strip()`. */
  lemma StripPadding(ws1: string, x: string, ws2: string)
    requires AllSpace(ws1) && AllSpace(ws2)
    ensures Strip(ws1 + x + ws2) == Strip(x)
  {
    PaddedFramed(ws1, x, ws2);
    StripFramed(ws1 + x + ws2, x, |ws1|);
  }

  lemma PaddedFramed(ws1: string, x: string, ws2: string)
    requires AllSpace(ws1) && AllSpace(ws2)
    ensures Framed(ws1 + x + ws2, x, |ws1|)
  {
    var s := ws1 + x + ws2;
    ConcatEmbeds(ws1, x);
    ConcatEmbeds(ws1 + x, ws2);
    forall k | 0 <= k < |x| ensures s[|ws1| + k] == x[k] {
      assert s[0 + (|ws1| + k)] == (ws1 + x)[|ws1| + k];
    }
  }

  lemma StripFramed(s: string, x: string, p: nat)
    requires Framed(s, x, p)
    ensures Strip(s) == Strip(x)
  {
    if SkipSpace(x, 0) == |x| {
      BlankScan(x);
      FramedBlank(s, x, p);
      AllSpaceStrip(s);
      AllSpaceStrip(x);
    } else {
      var i := SkipSpace(x, 0);
      var j := BackSpace(x, i, |x|);
      FramedStart(s, x, p);
      FramedEnd(s, x, p, i);
      StripIs(x, i, j);
      StripIs(s, p + i, p + j);
      EmbedsSlice(s, x, p, i, j);
    }
  }

  lemma StripIs(s: string, i: nat, j: nat)
    requires i == SkipSpace(s, 0) && j == BackSpace(s, i, |s|)
    ensures Strip(s) == s[i..j]
  {
  }

  /** Where the forward scan of a framed string stops. */
  lemma FramedStart(s: string, x: string, p: nat)
    requires Framed(s, x, p) && SkipSpace(x, 0) < |x|
    ensures SkipSpace(s, 0) == p + SkipSpace(x, 0)
  {
    SkipSpaceOver(s, 0, p);
    SkipSpaceEmbeds(s, x, p, 0);
  }

  /** Where the backward scan of a framed string stops. */
  lemma FramedEnd(s: string, x: string, p: nat, i: nat)
    requires Framed(s, x, p) && i <= |x|
    ensures BackSpace(s, p + i, |s|) == p + BackSpace(x, i, |x|)
  {
    BackSpaceOver(s, p + i, p + |x|, |s|);
    BackSpaceEmbeds(s, x, p, i, |x|);
  }

  /** Whitespace framed by whitespace is all whitespace. */
  lemma FramedBlank(s: string, x: string, p: nat)
    requires Framed(s, x, p) && AllSpace(x)
    ensures AllSpace(s)
  {
    forall k | 0 <= k < |s| ensures IsSpace(s[k]) {
      if p <= k < p + |x| {
        assert s[p + (k - p)] == x[k - p];
      }
    }
  }

  /** A forward scan that reaches the end has seen only whitespace. */
  lemma BlankScan(s: string)
    requires SkipSpace(s, 0) == |s|
    ensures AllSpace(s)
  {
    LeadingRun(s);
  }

  lemma AllSpaceStrip(s: string)
    requires AllSpace(s)
    ensures Strip(s) == []
  {
    AllSpaceSkip(s, 0);
  }

  /** A string that neither starts nor ends with whitespace strips to itself. */
  lemma StripUnpadded(s: string)
    requires s != [] && !IsSpace(s[0]) && !IsSpace(s[|s| - 1])
    ensures Strip(s) == s
  {
    assert SkipSpace(s, 0) == 0;
    assert BackSpace(s, 0, |s|) == |s|;
    assert s[0..|s|] == s;
  }

  /** `strip()` leaves nothing exactly when the string is all whitespace. */
  lemma StripEmptyIff(s: string)
    ensures Strip(s) == [] <==> AllSpace(s)
  {
    var r := Strip(s);
    StripShape(s);
    var i :| Trims(s, r, i);
    if r != [] {
      assert r[0] == s[i];
    }
  }

  // ---------------------------------------------------------------------
  // split()
  // ---------------------------------------------------------------------

  /** Scanning forward from `i`: the first index that holds whitespace, or
      `|s|`. */
  function SkipWord(s: string, i: nat): (j: nat)
    requires i <= |s|
    ensures i <= j <= |s|
    ensures j < |s| ==> IsSpace(s[j])
    decreases |s| - i
  {
    if i < |s| && !IsSpace(s[i]) then SkipWord(s, i + 1) else i
  }

  /** The words of `s` from index `i` on: skip a whitespace run, take the
      maximal run of non-whitespace that follows as the next word, repeat. */
  function SplitFrom(s: string, i: nat): seq<string>
    requires i <= |s|
    decreases |s| - i
  {
    var b := SkipSpace(s, i);
    if b == |s| then []
    else
      var e := SkipWord(s, b);
      [s[b..e]] + SplitFrom(s, e)
  }

  /** `s.split()` with no separator. */
  function Split(s: string): seq<string>
  {
    SplitFrom(s, 0)
  }

  /** Everything `SkipWord` passes over is non-whitespace. */
  lemma {:induction false} SkipWordRun(s: string, i: nat, k: nat)
    requires i <= |s| && i <= k < SkipWord(s, i)
    ensures !IsSpace(s[k])
    decreases |s| - i
  {
    if i < k {
      SkipWordRun(s, i + 1, k);
    }
  }

  /** Every word of `split()` is non-empty and holds no whitespace. */
  lemma {:induction false} SplitFromWords(s: string, i: nat, n: nat)
    requires i <= |s| && n < |SplitFrom(s, i)|
    ensures SplitFrom(s, i)[n] != [] && NoSpace(SplitFrom(s, i)[n])
    decreases |s| - i
  {
    var b := SkipSpace(s, i);
    var e := SkipWord(s, b);
    if n == 0 {
      var w := s[b..e];
      forall k | 0 <= k < |w| ensures !IsSpace(w[k]) {
        SkipWordRun(s, b, b + k);
      }
    } else {
      SplitFromWords(s, e, n - 1);
    }
  }

  lemma SplitWords(s: string, n: nat)
    requires n < |Split(s)|
    ensures Split(s)[n] != [] && NoSpace(Split(s)[n])
  {
    SplitFromWords(s, 0, n);
  }

  /** `split()` finds no words exactly when the string is all whitespace. */
  lemma SplitEmptyIff(s: string)
    ensures Split(s) == [] <==> AllSpace(s)
  {
    if AllSpace(s) {
      AllSpaceSkip(s, 0);
    } else if SkipSpace(s, 0) == |s| {
      BlankScan(s);
    }
  }

  /** One whitespace code point in front changes nothing. */
  lemma SplitFromSpace(s: string, i: nat)
    requires i < |s| && IsSpace(s[i])
    ensures SplitFrom(s, i) == SplitFrom(s, i + 1)
  {
    assert SkipSpace(s, i) == SkipSpace(s, i + 1);
  }

  /** The word scan of an embedded suffix is the word scan of the
      embedding string, shifted. */
  lemma {:induction false} SkipWordEmbeds(s: string, x: string, p: nat, i: nat)
    requires Embeds(s, x, p) && p + |x| == |s| && i <= |x|
    ensures SkipWord(s, p + i) == p + SkipWord(x, i)
    decreases |x| - i
  {
    if i < |x| {
      assert s[p + i] == x[i];
      if !IsSpace(x[i]) {
        SkipWordEmbeds(s, x, p, i + 1);
      }
    }
  }

  /** `SplitFrom` when a word remains: that word, then the words after it. */
  lemma SplitFromWord(s: string, i: nat, b: nat, e: nat)
    requires i <= |s| && b == SkipSpace(s, i) < |s| && e == SkipWord(s, b)
    ensures SplitFrom(s, i) == [s[b..e]] + SplitFrom(s, e)
  {
  }

  /** The words of a string from an embedded suffix on are the words of
      that suffix. */
  lemma {:induction false} SplitFromShift(s: string, x: string, p: nat, i: nat)
    requires Embeds(s, x, p) && p + |x| == |s| && i <= |x|
    ensures SplitFrom(s, p + i) == SplitFrom(x, i)
    decreases |x| - i
  {
    var xs := SkipSpace(x, i);
    if xs < |x| {
      var xe := SkipWord(x, xs);
      ShiftedWord(s, x, p, i, xs, xe);
      SplitFromShift(s, x, p, xe);
      SplitFromWord(x, i, xs, xe);
    } else {
      SkipSpaceEmbeds(s, x, p, i);
    }
  }

  /** The next word of a string inside an embedded suffix is the next word
      of that suffix. */
  lemma ShiftedWord(s: string, x: string, p: nat, i: nat, xs: nat, xe: nat)
    requires Embeds(s, x, p) && p + |x| == |s| && i <= |x|
    requires xs == SkipSpace(x, i) < |x| && xe == SkipWord(x, xs)
    ensures SplitFrom(s, p + i) == [x[xs..xe]] + SplitFrom(s, p + xe)
  {
    SkipSpaceEmbeds(s, x, p, i);
    SkipWordEmbeds(s, x, p, xs);
    SplitFromWord(s, p + i, p + xs, p + xe);
    EmbedsSlice(s, x, p, xs, xe);
  }

  /** A word ends where whitespace or the end of the string begins. */
  lemma {:induction false} SkipWordStops(w: string, rest: string, i: nat)
    requires i <= |w| && NoSpace(w)
    requires rest == [] || IsSpace(rest[0])
    ensures SkipWord(w + rest, i) == |w|
    decreases |w| - i
  {
    if i < |w| {
      assert (w + rest)[i] == w[i];
      SkipWordStops(w, rest, i + 1);
    } else if rest != [] {
      assert (w + rest)[i] == rest[0];
    }
  }

  /** A word followed by the end of the string or by whitespace is the
      first word of `split()`. */
  lemma SplitWordFirst(w: string, rest: string)
    requires w != [] && NoSpace(w)
    requires rest == [] || IsSpace(rest[0])
    ensures Split(w + rest) == [w] + Split(rest)
  {
    var s := w + rest;
    assert s[0] == w[0];
    assert SkipSpace(s, 0) == 0;
    SkipWordStops(w, rest, 0);
    assert s[0..|w|] == w;
    ConcatEmbeds(w, rest);
    SplitFromShift(s, rest, |w|, 0);
  }

  lemma SplitOneWord(w: string)
    requires w != [] && NoSpace(w)
    ensures Split(w) == [w]
  {
    SplitWordFirst(w, []);
    assert w + [] == w;
  }

  /** One space in front of any string changes nothing in `split()`. */
  lemma SplitPrefixSpace(j: string)
    ensures Split(" " + j) == Split(j)
  {
    SplitFromSpace(" " + j, 0);
    ConcatEmbeds(" ", j);
    SplitFromShift(" " + j, j, 1, 0);
  }

  /** `" ".join(ws)`. */
  function Join(ws: seq<string>): string
  {
    if ws == [] then [] else if |ws| == 1 then ws[0] else ws[0] + " " + Join(ws[1..])
  }

  /** The first word of a joined list comes out first. */
  lemma SplitJoinFirst(ws: seq<string>)
    requires |ws| > 1 && ws[0] != [] && NoSpace(ws[0])
    ensures Split(Join(ws)) == [ws[0]] + Split(Join(ws[1..]))
  {
    var j := Join(ws[1..]);
    assert Join(ws) == ws[0] + (" " + j);
    SplitWordFirst(ws[0], " " + j);
    SplitPrefixSpace(j);
  }

  /** Words that are non-empty and free of whitespace come back unchanged
      from `" ".join` followed by `split()`. */
  lemma {:induction false} SplitJoin(ws: seq<string>)
    requires forall k :: 0 <= k < |ws| ==> ws[k] != [] && NoSpace(ws[k])
    ensures Split(Join(ws)) == ws
    decreases |ws|
  {
    if |ws| == 1 {
      SplitOneWord(ws[0]);
    } else if |ws| > 1 {
      SplitJoinFirst(ws);
      SplitJoin(ws[1..]);
      assert ws == [ws[0]] + ws[1..];
    }
  }


  /** `w` stands in `t` starting at position `i`. */
  predicate OccursAt(w: string, t: string, i: int) {
    0 <= i && i + |w| <= |t| && t[i..i + |w|] == w
  }

  lemma OccursAtByChars(w: string, t: string, i: nat)
    requires i + |w| <= |t| && forall j :: 0 <= j < |w| ==> t[i + j] == w[j]
    ensures OccursAt(w, t, i)
  {
    assert t[i..i + |w|] == w;
  }

  /** Python's `w in t` on strings: `w` occurs as a contiguous substring. */
  predicate Occurs(w: string, t: string)
    decreases |t|
  {
    || (|w| <= |t| && t[..|w|] == w)
    || (t != [] && Occurs(w, t[1..]))
  }

  /** Standing at `i + 1` in `t` is standing at `i` in its tail. */
  lemma OccursAtTail(w: string, t: string, i: nat)
    requires t != []
    ensures OccursAt(w, t[1..], i) <==> OccursAt(w, t, i + 1)
  {
    if i + |w| <= |t[1..]| {
      assert t[1..][i..i + |w|] == t[i + 1..i + 1 + |w|];
    }
  }

  /** Where `w in t` holds, `w` stands at some position. */
  lemma {:induction false} OccursWitness(w: string, t: string) returns (i: nat)
    requires Occurs(w, t)
    ensures OccursAt(w, t, i)
    decreases |t|
  {
    if |w| <= |t| && t[..|w|] == w {
      i := 0;
    } else {
      var j := OccursWitness(w, t[1..]);
      OccursAtTail(w, t, j);
      i := j + 1;
    }
  }

  /** Where `w` stands at some position, `w in t` holds. */
  lemma {:induction false} OccursFromAt(w: string, t: string, i: nat)
    requires OccursAt(w, t, i)
    ensures Occurs(w, t)
    decreases i
  {
    if i > 0 {
      OccursAtTail(w, t, i - 1);
      OccursFromAt(w, t[1..], i - 1);
    }
  }

  /** `Occurs` agrees with the definition by position. */
  lemma OccursIff(w: string, t: string)
    ensures Occurs(w, t) <==> exists i :: OccursAt(w, t, i)
  {
    if Occurs(w, t) {
      var i := OccursWitness(w, t);
    }
    if exists i :: OccursAt(w, t, i) {
      var i :| OccursAt(w, t, i);
      OccursFromAt(w, t, i);
    }
  }

  /** Every code point of an occurring string is a code point of the text. */
  lemma OccursChars(w: string, t: string, c: char)
    requires Occurs(w, t) && c in w
    ensures c in t
  {
    OccursIff(w, t);
    var i :| OccursAt(w, t, i);
    var j :| 0 <= j < |w| && w[j] == c;
    assert t[i + j] == c;
  }

  // ---------------------------------------------------------------------
  // Partners of split(): what the words contain
  // ---------------------------------------------------------------------

  /** The code points of `s` that are not whitespace, in order. */
  function RemoveSpace(s: string): string
  {
    if s == [] then []
    else (if IsSpace(s[0]) then [] else [s[0]]) + RemoveSpace(s[1..])
  }

  function Flatten(ws: seq<string>): string
  {
    if ws == [] then [] else ws[0] + Flatten(ws[1..])
  }

  /** `RemoveSpace` of a suffix, one code point at a time. */
  lemma RemoveSpaceStep(s: string, i: nat)
    requires i < |s|
    ensures RemoveSpace(s[i..]) == (if IsSpace(s[i]) then [] else [s[i]]) + RemoveSpace(s[i + 1..])
  {
    assert s[i..][0] == s[i] && s[i..][1..] == s[i + 1..];
  }

  /** A whitespace run contributes nothing to `RemoveSpace`. */
  lemma {:induction false} RemoveSpaceSkip(s: string, i: nat)
    requires i <= |s|
    ensures RemoveSpace(s[i..]) == RemoveSpace(s[SkipSpace(s, i)..])
    decreases |s| - i
  {
    if i < |s| && IsSpace(s[i]) {
      RemoveSpaceStep(s, i);
      assert [] + RemoveSpace(s[i + 1..]) == RemoveSpace(s[i + 1..]);
      RemoveSpaceSkip(s, i + 1);
    }
  }

  /** A word contributes itself to `RemoveSpace`. */
  lemma {:induction false} RemoveSpaceKeep(s: string, i: nat)
    requires i <= |s|
    ensures RemoveSpace(s[i..]) == s[i..SkipWord(s, i)] + RemoveSpace(s[SkipWord(s, i)..])
    decreases |s| - i
  {
    var e := SkipWord(s, i);
    if i < |s| && !IsSpace(s[i]) {
      assert e == SkipWord(s, i + 1);
      calc {
        RemoveSpace(s[i..]);
      == { RemoveSpaceStep(s, i); }
        [s[i]] + RemoveSpace(s[i + 1..]);
      == { RemoveSpaceKeep(s, i + 1); }
        [s[i]] + (s[i + 1..e] + RemoveSpace(s[e..]));
      == { assert [s[i]] + s[i + 1..e] == s[i..e]; }
        s[i..e] + RemoveSpace(s[e..]);
      }
    } else {
      assert s[i..e] == [];
    }
  }

  lemma {:induction false} SplitFromContents(s: string, i: nat)
    requires i <= |s|
    ensures Flatten(SplitFrom(s, i)) == RemoveSpace(s[i..])
    decreases |s| - i
  {
    var b := SkipSpace(s, i);
    RemoveSpaceSkip(s, i);
    if b == |s| {
      assert s[b..] == [];
    } else {
      var e := SkipWord(s, b);
      var w := s[b..e];
      var ws := [w] + SplitFrom(s, e);
      assert ws[0] == w && ws[1..] == SplitFrom(s, e);
      SplitFromContents(s, e);
      RemoveSpaceKeep(s, b);
    }
  }

  /** Read one after another, the words of `s` are exactly its non-whitespace
      code points: `split()` loses whitespace and nothing else. */
  lemma SplitContents(s: string)
    ensures Flatten(Split(s)) == RemoveSpace(s)
  {
    SplitFromContents(s, 0);
    assert s[0..] == s;
  }

  lemma {:induction false} InRemoveSpace(s: string, j: nat)
    requires j < |s| && !IsSpace(s[j])
    ensures s[j] in RemoveSpace(s)
    decreases |s|
  {
    if j > 0 { InRemoveSpace(s[1..], j - 1); }
  }

  lemma {:induction false} InFlatten(ws: seq<string>, c: char)
    requires c in Flatten(ws)
    ensures exists k :: 0 <= k < |ws| && c in ws[k]
    decreases |ws|
  {
    if c !in ws[0] {
      InFlatten(ws[1..], c);
      var k :| 0 <= k < |ws[1..]| && c in ws[1..][k];
      assert c in ws[k + 1];
    }
  }

  /** Every non-whitespace code point of `s` lies in some word of `s.split()`. */
  lemma SplitCovers(s: string, j: nat)
    requires j < |s| && !IsSpace(s[j])
    ensures exists k :: 0 <= k < |Split(s)| && s[j] in Split(s)[k]
  {
    InRemoveSpace(s, j);
    SplitContents(s);
    InFlatten(Split(s), s[j]);
  }
}
