/** dir.c: what a path means, and what simplifying one does to its components. */
module PathMeaning {
  import opened CText
  import opened PathNames

  /** The non-empty stretches between slashes, from `i` on, when the current one began at `start`. */
  function SegmentsFrom(p: Text, start: nat, i: nat): (s: seq<Text>)
    requires start <= i <= |p|
    decreases |p| - i
  {
    var here := if start < i then [p[start..i]] else [];
    if i == |p| then here
    else if p[i] == '/' then here + SegmentsFrom(p, i + 1, i + 1)
    else SegmentsFrom(p, start, i + 1)
  }

  function Segments(p: Text): seq<Text> {
    SegmentsFrom(p, 0, 0)
  }

  predicate IsAbsolute(p: Text) {
    p != [] && p[0] == '/'
  }

  // --- where a path leads ------------------------------------------------------------------

  /** One step from directory `d`, given by the names on the way from the root; the root is its own parent. */
  function Go(d: seq<Text>, c: Text): seq<Text> {
    if c == [] || c == DOT then d
    else if c == DOTDOT then if d == [] then [] else d[..|d| - 1]
    else d + [c]
  }

  function Walk(d: seq<Text>, cs: seq<Text>): seq<Text> {
    if cs == [] then d else Go(Walk(d, cs[..|cs| - 1]), cs[|cs| - 1])
  }

  /** The directory or file `p` leads to from the working directory `cwd`. */
  function Location(cwd: seq<Text>, p: Text): seq<Text> {
    Walk(if IsAbsolute(p) then [] else cwd, Segments(p))
  }

  lemma {:induction false} WalkAppend(d: seq<Text>, a: seq<Text>, b: seq<Text>)
    ensures Walk(d, a + b) == Walk(Walk(d, a), b)
  {
    if b == [] {
      assert a + b == a;
    } else {
      WalkAppend(d, a, b[..|b| - 1]);
      assert (a + b)[..|a + b| - 1] == a + b[..|b| - 1];
    }
  }

  // --- the stack ---------------------------------------------------------------------------

  /** The components `simplify_path` cuts the path into. At index 0 its `end` wraps around, so a path that is
      empty or starts with a slash has an empty component first. */
  function Parts(p: Text): seq<Text> {
    (if p == [] || p[0] == '/' then [[]] else []) + Segments(p)
  }

  /** What one component does to the stack. */
  function Push(absolute: bool, stack: seq<Text>, c: Text): seq<Text> {
    if c == DOT then stack
    else if c == DOTDOT then
      if absolute then if stack == [] then [] else stack[..|stack| - 1]
      else if stack != [] && stack[|stack| - 1] != DOTDOT then stack[..|stack| - 1]
      else stack + [c]
    else stack + [c]
  }

  function Reduce(absolute: bool, cs: seq<Text>): seq<Text> {
    if cs == [] then [] else Push(absolute, Reduce(absolute, cs[..|cs| - 1]), cs[|cs| - 1])
  }

  /** A segment other than the two dots. */
  predicate Name(c: Text) { Component(c) && c != DOT && c != DOTDOT }

  /** Some ".." and then names. */
  ghost predicate UpsThenNames(s: seq<Text>, ups: nat) {
    ups <= |s| && (forall i :: 0 <= i < ups ==> s[i] == DOTDOT) && (forall i :: ups <= i < |s| ==> Name(s[i]))
  }

  /** The stack of an absolute path: names, with or without the empty component below them. */
  ghost predicate RootedNames(s: seq<Text>) {
    && (s != [] ==> s[0] == [] || Name(s[0]))
    && forall i :: 1 <= i < |s| ==> Name(s[i])
  }

  ghost predicate AllSegments(cs: seq<Text>) {
    forall i :: 0 <= i < |cs| ==> Component(cs[i])
  }

  lemma {:induction false} ReduceRelative(cs: seq<Text>) returns (ups: nat)
    requires AllSegments(cs)
    ensures UpsThenNames(Reduce(false, cs), ups)
  {
    if cs == [] {
      ups := 0;
    } else {
      ups := ReduceRelative(cs[..|cs| - 1]);
      var s := Reduce(false, cs[..|cs| - 1]);
      if cs[|cs| - 1] == DOTDOT && ups == |s| {
        ups := ups + 1;
      }
    }
  }

  /** Simplifying a relative path does not change where it leads, whatever directory it starts from. */
  lemma {:induction false} WalkReduced(d: seq<Text>, cs: seq<Text>)
    requires AllSegments(cs)
    ensures Walk(d, Reduce(false, cs)) == Walk(d, cs)
  {
    if cs != [] {
      var front, c := cs[..|cs| - 1], cs[|cs| - 1];
      WalkReduced(d, front);
      var s := Reduce(false, front);
      var ups := ReduceRelative(front);
      if c == DOTDOT && s != [] && s[|s| - 1] != DOTDOT {
        assert Name(s[|s| - 1]);
      } else if c != DOT {
        assert (s + [c])[..|s|] == s;
      }
    }
  }

  lemma {:induction false} ReduceAbsolute(cs: seq<Text>)
    requires AllSegments(cs)
    ensures RootedNames(Reduce(true, [[]] + cs))
    ensures Walk([], Reduce(true, [[]] + cs)) == Walk([], cs)
  {
    var all := [[]] + cs;
    if cs == [] {
      assert all[..0] == [];
      assert Reduce(true, all) == [[]];
    } else {
      var front, c := cs[..|cs| - 1], cs[|cs| - 1];
      ReduceAbsolute(front);
      assert all[..|all| - 1] == [[]] + front && all[|all| - 1] == c;
      var s := Reduce(true, [[]] + front);
      if c == DOTDOT {
        assert s != [] ==> s[|s| - 1] == [] || Name(s[|s| - 1]);
        assert s != [] && s[|s| - 1] == [] ==> |s| == 1;
      } else if c != DOT {
        assert (s + [c])[..|s|] == s;
      }
    }
  }

  /** A stack of ups and names is left alone. */
  lemma {:induction false} ReduceNormal(s: seq<Text>, ups: nat)
    requires UpsThenNames(s, ups)
    ensures Reduce(false, s) == s
  {
    if s != [] {
      var front := s[..|s| - 1];
      ReduceNormal(front, if ups < |s| then ups else ups - 1);
      assert front + [s[|s| - 1]] == s;
    }
  }

  // --- the result string -------------------------------------------------------------------

  /** The components with single slashes between them. */
  function Slashed(s: seq<Text>): Text {
    if s == [] then [] else if |s| == 1 then s[0] else Slashed(s[..|s| - 1]) + ['/'] + s[|s| - 1]
  }

  /** `total_len`. */
  function SumLengths(s: seq<Text>): nat {
    if s == [] then 0 else SumLengths(s[..|s| - 1]) + |s[|s| - 1]|
  }

  lemma {:induction false} SlashedLength(s: seq<Text>)
    requires s != []
    ensures |Slashed(s)| == SumLengths(s) + |s| - 1
  {
    if |s| > 1 {
      SlashedLength(s[..|s| - 1]);
    } else {
      assert s[..0] == [];
    }
  }

  function Rendered(absolute: bool, stack: seq<Text>): Text {
    if absolute then ['/'] + Slashed(stack) else if stack == [] then DOT else Slashed(stack)
  }

  /** The result of `simplify_path`. */
  function Simplified(p: Text): (r: Text) {
    Rendered(IsAbsolute(p), Reduce(IsAbsolute(p), Parts(p)))
  }

  // --- cutting a rendered path -------------------------------------------------------------

  lemma {:induction false} SegmentsWellFormed(p: Text, start: nat, i: nat)
    requires start <= i <= |p| && NUL !in p
    requires forall j :: start <= j < i ==> p[j] != '/'
    ensures AllSegments(SegmentsFrom(p, start, i))
    decreases |p| - i
  {
    if i < |p| {
      if p[i] == '/' {
        SegmentsWellFormed(p, i + 1, i + 1);
      } else {
        SegmentsWellFormed(p, start, i + 1);
      }
    }
    assert start < i ==> Component(p[start..i]);
  }

  /** A path with a slash and another segment appended. */
  lemma {:induction false} SegmentsAppend(p: Text, start: nat, i: nat, c: Text)
    requires start <= i <= |p| && '/' !in c
    requires forall j :: start <= j < i ==> p[j] != '/'
    ensures SegmentsFrom(p + ['/'] + c, start, i) == SegmentsFrom(p, start, i) + (if c == [] then [] else [c])
    decreases |p| - i
  {
    var q := p + ['/'] + c;
    assert q[start..i] == p[start..i];
    if i < |p| {
      assert q[i] == p[i];
      if p[i] == '/' {
        SegmentsAppend(p, i + 1, i + 1, c);
      } else {
        SegmentsAppend(p, start, i + 1, c);
      }
    } else {
      assert q[|p|] == '/';
      LastSegment(q, |p| + 1, |p| + 1);
      assert q[|p| + 1..] == c;
    }
  }

  lemma {:induction false} LastSegment(p: Text, start: nat, i: nat)
    requires start <= i <= |p| && forall j :: start <= j < |p| ==> p[j] != '/'
    ensures SegmentsFrom(p, start, i) == if start < |p| then [p[start..]] else []
    decreases |p| - i
  {
    if i < |p| {
      LastSegment(p, start, i + 1);
    } else {
      assert start < i ==> p[start..i] == p[start..];
    }
  }

  function NonEmpty(s: seq<Text>): seq<Text> {
    if s == [] then [] else NonEmpty(s[..|s| - 1]) + (if s[|s| - 1] == [] then [] else [s[|s| - 1]])
  }

  /** Cutting up joined components gives them back, but for the empty ones. */
  lemma {:induction false} SegmentsOfSlashed(s: seq<Text>)
    requires forall i :: 0 <= i < |s| ==> '/' !in s[i]
    ensures Segments(Slashed(s)) == NonEmpty(s)
  {
    if |s| == 1 {
      LastSegment(s[0], 0, 0);
      assert s[0][0..] == s[0];
      assert s[..0] == [] && NonEmpty(s[..0]) == [];
    } else if |s| > 1 {
      SegmentsOfSlashed(s[..|s| - 1]);
      SegmentsAppend(Slashed(s[..|s| - 1]), 0, 0, s[|s| - 1]);
    }
  }

  lemma {:induction false} LeadingSlash(p: Text, start: nat, i: nat)
    requires start <= i <= |p|
    ensures SegmentsFrom(['/'] + p, start + 1, i + 1) == SegmentsFrom(p, start, i)
    decreases |p| - i
  {
    var q := ['/'] + p;
    assert q[start + 1..i + 1] == p[start..i];
    if i < |p| {
      assert q[i + 1] == p[i];
      if p[i] == '/' {
        LeadingSlash(p, i + 1, i + 1);
      } else {
        LeadingSlash(p, start, i + 1);
      }
    }
  }

  lemma {:induction false} NonEmptyNames(s: seq<Text>)
    requires forall i :: 0 <= i < |s| ==> s[i] != []
    ensures NonEmpty(s) == s
  {
    if s != [] {
      NonEmptyNames(s[..|s| - 1]);
      assert s[..|s| - 1] + [s[|s| - 1]] == s;
    }
  }

  lemma {:induction false} WalkNonEmpty(d: seq<Text>, s: seq<Text>)
    ensures Walk(d, NonEmpty(s)) == Walk(d, s)
  {
    if s != [] {
      var front, c := s[..|s| - 1], s[|s| - 1];
      WalkNonEmpty(d, front);
      if c == [] {
        assert NonEmpty(front) + [] == NonEmpty(front);
      } else {
        assert (NonEmpty(front) + [c])[..|NonEmpty(front)|] == NonEmpty(front);
      }
    }
  }

  // --- what simplifying does ---------------------------------------------------------------

  lemma {:induction false} SegmentsOfAbsolute(q: Text)
    ensures Segments(['/'] + q) == Segments(q)
  {
    LeadingSlash(q, 0, 0);
  }

  lemma {:induction false} SlashedFirst(s: seq<Text>)
    requires s != [] && s[0] != []
    ensures Slashed(s) != [] && Slashed(s)[0] == s[0][0]
  {
    if |s| > 1 {
      SlashedFirst(s[..|s| - 1]);
    }
  }

  /** The result of a relative path that is not empty: a single dot, or ups and then names. */
  lemma {:induction false} SimplifiedRelative(p: Text) returns (s: seq<Text>, ups: nat)
    requires p != [] && !IsAbsolute(p) && NUL !in p
    ensures UpsThenNames(s, ups) && Simplified(p) == if s == [] then DOT else Slashed(s)
    ensures s == Reduce(false, Segments(p))
    ensures Simplified(p) != [] && !IsAbsolute(Simplified(p))
    ensures Segments(Simplified(p)) == if s == [] then [DOT] else s
  {
    SegmentsWellFormed(p, 0, 0);
    s := Reduce(false, Segments(p));
    ups := ReduceRelative(Segments(p));
    assert Parts(p) == Segments(p);
    assert forall i :: 0 <= i < |s| ==> '/' !in s[i] && s[i] != [];
    if s == [] {
      LastSegment(DOT, 0, 0);
    } else {
      SlashedFirst(s);
      SegmentsOfSlashed(s);
      NonEmptyNames(s);
    }
  }

  /** The stack of an absolute path: where the path leads, on top of the empty component unless a ".." has
      been taken at the root, which pops that one too. */
  ghost predicate Escapes(cs: seq<Text>) {
    exists n :: 0 <= n < |cs| && cs[n] == DOTDOT && Walk([], cs[..n]) == []
  }

  lemma {:induction false} EscapesMore(cs: seq<Text>)
    requires cs != []
    ensures var front := cs[..|cs| - 1];
            Escapes(cs) <==> Escapes(front) || (cs[|cs| - 1] == DOTDOT && Walk([], front) == [])
  {
    var front := cs[..|cs| - 1];
    if Escapes(front) {
      var n :| 0 <= n < |front| && front[n] == DOTDOT && Walk([], front[..n]) == [];
      assert cs[n] == DOTDOT && cs[..n] == front[..n];
    }
    if Escapes(cs) {
      var n :| 0 <= n < |cs| && cs[n] == DOTDOT && Walk([], cs[..n]) == [];
      if n < |front| {
        assert front[n] == DOTDOT && front[..n] == cs[..n];
      }
    }
    assert cs[..|cs| - 1] == front;
  }

  lemma {:induction false} AbsoluteStack(cs: seq<Text>)
    requires AllSegments(cs)
    ensures Reduce(true, [[]] + cs) == (if Escapes(cs) then [] else [[]]) + Walk([], cs)
  {
    var all := [[]] + cs;
    if cs == [] {
      assert all[..0] == [];
      assert Reduce(true, all) == [[]];
    } else {
      var front, c := cs[..|cs| - 1], cs[|cs| - 1];
      AbsoluteStack(front);
      EscapesMore(cs);
      assert all[..|all| - 1] == [[]] + front && all[|all| - 1] == c;
    }
  }

  lemma {:induction false} WalkNames(cs: seq<Text>)
    requires AllSegments(cs)
    ensures forall i :: 0 <= i < |Walk([], cs)| ==> Name(Walk([], cs)[i])
  {
    if cs != [] {
      WalkNames(cs[..|cs| - 1]);
    }
  }

  lemma {:induction false} SlashedBehindEmpty(s: seq<Text>)
    requires s != []
    ensures Slashed([[]] + s) == ['/'] + Slashed(s)
  {
    var t := [[]] + s;
    assert t[..|t| - 1] == [[]] + s[..|s| - 1];
    if |s| > 1 {
      SlashedBehindEmpty(s[..|s| - 1]);
    } else {
      assert Slashed(t[..1]) == t[0] == [];
    }
  }

  lemma {:induction false} SegmentsAll(p: Text)
    requires NUL !in p
    ensures AllSegments(Segments(p))
  {
    SegmentsWellFormed(p, 0, 0);
  }

  lemma {:induction false} NothingSlashed()
    ensures Slashed([]) == [] && Slashed([[]]) == [] && Segments([]) == []
  {
  }

  /** The result of an absolute path: the names it leads through, behind two slashes, or behind one if the
      path has climbed over the root. */
  lemma {:induction false} SimplifiedAbsolute(p: Text)
    requires IsAbsolute(p) && NUL !in p
    ensures var w := Walk([], Segments(p));
            && Simplified(p) == (if w == [] then "/" else if Escapes(Segments(p)) then "/" + Slashed(w) else "//" + Slashed(w))
            && IsAbsolute(Simplified(p)) && Segments(Simplified(p)) == w
  {
    hide Walk, Reduce, Segments, Escapes, Slashed, NonEmpty;
    SegmentsAll(p);
    NothingSlashed();
    var cs, w := Segments(p), Walk([], Segments(p));
    AbsoluteStack(cs);
    WalkNames(cs);
    assert Parts(p) == [[]] + cs;
    if w != [] {
      SlashedBehindEmpty(w);
      SegmentsOfSlashed(w);
      NonEmptyNames(w);
      SegmentsOfAbsolute(Slashed(w));
      SegmentsOfAbsolute(['/'] + Slashed(w));
      assert "//" + Slashed(w) == ['/'] + (['/'] + Slashed(w));
      assert [] + w == w;
    } else {
      SegmentsOfAbsolute([]);
      var base: seq<Text> := if Escapes(cs) then [] else [[]];
      assert base + w == base && Slashed(base) == [];
      assert ['/'] + [] == "/" == Simplified(p);
    }
  }

  lemma {:induction false} SimplifiedEmpty()
    ensures Simplified([]) == [] && Segments([]) == []
  {
    var one: seq<Text> := [[]];
    assert Parts([]) == one;
    assert one[..0] == [];
    assert Reduce(false, one) == one;
  }

  /** Simplifying preserves meaning: from every working directory, the result leads where the path did. */
  lemma {:induction false} SimplifyKeepsLocation(cwd: seq<Text>, p: Text)
    requires NUL !in p
    ensures IsAbsolute(Simplified(p)) == IsAbsolute(p)
    ensures Location(cwd, Simplified(p)) == Location(cwd, p)
  {
    if p == [] {
      SimplifiedEmpty();
    } else if IsAbsolute(p) {
      SimplifiedAbsolute(p);
      SegmentsWellFormed(p, 0, 0);
      WalkNames(Segments(p));
      WalkOfNames([], Walk([], Segments(p)));
    } else {
      var s, ups := SimplifiedRelative(p);
      SegmentsWellFormed(p, 0, 0);
      WalkReduced(cwd, Segments(p));
      assert s == [] ==> [DOT][..0] == [] && Walk(cwd, [DOT]) == cwd;
    }
  }

  /** Names lead to where they say. */
  lemma {:induction false} WalkOfNames(d: seq<Text>, w: seq<Text>)
    requires forall i :: 0 <= i < |w| ==> Name(w[i])
    ensures Walk(d, w) == d + w
  {
    if w != [] {
      WalkOfNames(d, w[..|w| - 1]);
      assert d + w == d + w[..|w| - 1] + [w[|w| - 1]];
    }
  }

  /** For relative paths simplifying twice is simplifying once. */
  lemma {:induction false} RelativeIdempotent(p: Text)
    requires !IsAbsolute(p) && NUL !in p
    ensures Simplified(Simplified(p)) == Simplified(p)
  {
    if p == [] {
      SimplifiedEmpty();
    } else {
      var s, ups := SimplifiedRelative(p);
      var r := Simplified(p);
      assert Parts(r) == Segments(r);
      if s == [] {
        assert [DOT][..0] == [];
        assert Reduce(false, [DOT]) == [];
      } else {
        ReduceNormal(s, ups);
      }
    }
  }

  /** For absolute paths it is so exactly if the path never climbs over the root, or leads to it. */
  lemma {:induction false} AbsoluteIdempotent(p: Text)
    requires IsAbsolute(p) && NUL !in p
    ensures Simplified(Simplified(p)) == Simplified(p) <==> !Escapes(Segments(p)) || Location([], p) == []
  {
    SimplifiedAbsolute(p);
    SegmentsWellFormed(p, 0, 0);
    var w, r := Walk([], Segments(p)), Simplified(p);
    WalkNames(Segments(p));
    WalkOfNames([], w);
    NoNulInResult(w);
    NeverEscapes(w);
    SimplifiedAbsolute(r);
    assert [] + w == w;
    assert |"/" + Slashed(w)| != |"//" + Slashed(w)|;
  }

  lemma {:induction false} NeverEscapes(w: seq<Text>)
    requires forall i :: 0 <= i < |w| ==> Name(w[i])
    ensures !Escapes(w)
  {
  }

  lemma {:induction false} NoNulInResult(w: seq<Text>)
    requires forall i :: 0 <= i < |w| ==> Name(w[i])
    ensures NUL !in Slashed(w) && NUL !in "/" + Slashed(w) && NUL !in "//" + Slashed(w)
  {
    if |w| > 1 {
      NoNulInResult(w[..|w| - 1]);
    }
  }

  lemma {:induction false} ClimbingSegments()
    ensures Segments("/../a") == [DOTDOT, "a"]
  {
    SegmentsOfAbsolute("../a");
    SegmentsAppend("..", 0, 0, "a");
    LastSegment("..", 0, 0);
    assert ".." + ['/'] + "a" == "../a" && ['/'] + "../a" == "/../a";
  }

  lemma {:induction false} Climbs()
    ensures Escapes([DOTDOT, "a"]) && Walk([], [DOTDOT, "a"]) == ["a"]
  {
    var up, both := [DOTDOT], [DOTDOT, "a"];
    assert up[..0] == [] && both[..0] == [] && both[..1] == up;
    assert both[0] == DOTDOT;
  }

  /** So it fails for `/../a`, which becomes `/a`, and that becomes `//a`. */
  lemma {:induction false} AbsoluteNotIdempotent()
    ensures Simplified("/../a") == "/a" && Simplified(Simplified("/../a")) != Simplified("/../a")
  {
    hide Segments, Walk, Escapes, Simplified;
    ClimbingSegments();
    Climbs();
    SimplifiedAbsolute("/../a");
    AbsoluteIdempotent("/../a");
  }
}
