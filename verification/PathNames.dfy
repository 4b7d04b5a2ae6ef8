/** Path strings: how the file system takes them apart. */
module PathNames {
  import opened CText

  type Text = seq<Byte>

  const DOT: Text := "."
  const DOTDOT: Text := ".."

  /** A path component as it may stand between two slashes. */
  predicate Component(c: Text) { c != [] && '/' !in c && NUL !in c }

  predicate Components(cs: seq<Text>) {
    forall i :: 0 <= i < |cs| ==> Component(cs[i])
  }

  /** The components, each behind a slash. */
  function Joined(cs: seq<Text>): (p: Text)
    ensures cs != [] ==> p != [] && p[0] == '/'
  {
    if cs == [] then [] else Joined(cs[..|cs| - 1]) + ['/'] + cs[|cs| - 1]
  }

  /** The absolute path of `cs`. */
  function Join(cs: seq<Text>): Text {
    if cs == [] then "/" else Joined(cs)
  }

  /** `strrchr(p, '/')` within the first `n` characters, or -1. */
  function LastSlash(p: Text, n: nat): (k: int)
    requires n <= |p|
    ensures -1 <= k < n
    ensures k >= 0 ==> p[k] == '/'
    ensures forall j :: k < j < n ==> p[j] != '/'
  {
    if n == 0 then -1 else if p[n - 1] == '/' then n - 1 else LastSlash(p, n - 1)
  }

  /** `get_parent_dir`. */
  function ParentPath(p: Text): Text {
    var k := LastSlash(p, |p|);
    var dir := if k < 0 then p else p[..k];
    if dir == [] then "/" else dir
  }

  /** `get_base_name`. */
  function BaseName(p: Text): Text {
    p[LastSlash(p, |p|) + 1..]
  }

  /** Parent and base rejoin to the path. */
  lemma {:induction false} SplitRejoins(p: Text)
    requires '/' in p
    ensures p == (if ParentPath(p) == "/" then [] else ParentPath(p)) + ['/'] + BaseName(p)
         || (ParentPath(p) == "/" && p == ['/'] + ['/'] + BaseName(p))
  {
    var k := LastSlash(p, |p|);
    assert k >= 0;
    assert p == p[..k] + [p[k]] + p[k + 1..];
  }

  /** Taking the last component off a joined path. */
  lemma {:induction false} SplitJoin(cs: seq<Text>)
    requires cs != [] && Components(cs)
    ensures ParentPath(Join(cs)) == Join(cs[..|cs| - 1])
    ensures BaseName(Join(cs)) == cs[|cs| - 1]
  {
    var front, last := cs[..|cs| - 1], cs[|cs| - 1];
    var p, n := Joined(cs), |Joined(front)|;
    assert p == Joined(front) + ['/'] + last;
    assert p[n] == '/';
    LastSlashIs(p, n, |p|);
    assert p[..n] == Joined(front) && p[n + 1..] == last;
  }

  lemma {:induction false} LastSlashIs(p: Text, k: nat, n: nat)
    requires k < n <= |p| && p[k] == '/'
    requires forall j :: k < j < n ==> p[j] != '/'
    ensures LastSlash(p, n) == k
  {
    if k < n - 1 {
      LastSlashIs(p, k, n - 1);
    }
  }

  lemma {:induction false} SplitRoot()
    ensures ParentPath("/") == "/" && BaseName("/") == []
  {
    LastSlashIs("/", 0, 1);
  }

  // --- where a component stands in a path --------------------------------------------------

  /** The index of the first character of component `i`. */
  function Place(cs: seq<Text>, i: nat): nat
    requires i <= |cs|
  {
    |Joined(cs[..i])| + 1
  }

  lemma {:induction false} JoinedPrefix(cs: seq<Text>, i: nat)
    requires i <= |cs|
    ensures Joined(cs[..i]) <= Joined(cs)
    decreases |cs| - i
  {
    if i < |cs| {
      JoinedPrefix(cs, i + 1);
      assert cs[..i + 1][..i] == cs[..i];
    } else {
      assert cs[..i] == cs;
    }
  }

  /** Component `i` stands at its place, between a slash and either the next slash or the end. */
  lemma {:induction false} ComponentAt(cs: seq<Text>, i: nat)
    requires Components(cs) && i < |cs|
    ensures var (p, at, n) := (Joined(cs), Place(cs, i), |cs[i]|);
            && 1 <= at && at + n <= |p| && p[at..at + n] == cs[i]
            && Place(cs, i + 1) == at + n + 1
            && (i + 1 == |cs| ==> at + n == |p|)
            && (i + 1 < |cs| ==> at + n + 1 < |p| && p[at + n] == '/')
  {
    JoinedPrefix(cs, i + 1);
    assert cs[..i + 1][..i] == cs[..i];
    var p, at, n := Joined(cs), Place(cs, i), |cs[i]|;
    assert Joined(cs[..i + 1]) == Joined(cs[..i]) + ['/'] + cs[i];
    assert p[..|Joined(cs[..i + 1])|] == Joined(cs[..i + 1]);
    assert p[at..at + n] == Joined(cs[..i + 1])[at..at + n] == cs[i];
    if i + 1 == |cs| {
      assert cs[..i + 1] == cs;
    } else {
      JoinedPrefix(cs, i + 2);
      assert cs[..i + 2][..i + 1] == cs[..i + 1];
      var q := Joined(cs[..i + 2]);
      assert q == Joined(cs[..i + 1]) + ['/'] + cs[i + 1];
      assert p[at + n] == q[at + n] == '/';
      assert Component(cs[i + 1]);
    }
  }

  // --- spellings ---------------------------------------------------------------------------

  /** A path without empty components: something before the first slash, components, perhaps a slash behind them.
      Nothing at all, and "~" alone, are no such paths: for them the scan would go on behind the end. */
  predicate Spells(path: Text, head: Text, cs: seq<Text>, tail: Text) {
    && Components(cs) && '/' !in head && (tail == [] || tail == ['/'])
    && path == head + Joined(cs) + tail
    && (cs == [] && tail == [] ==> head != [] && head != "~")
  }

  /** The index of the first character of component `i` in a spelling. */
  function SpelledAt(head: Text, cs: seq<Text>, i: nat): nat
    requires i <= |cs|
  {
    |head| + Place(cs, i)
  }

  lemma {:induction false} FirstPlace(head: Text, cs: seq<Text>)
    ensures SpelledAt(head, cs, 0) == |head| + 1
  {
    assert cs[..0] == [];
  }

  /** The head ends at the first slash, or at the end. */
  lemma {:induction false} HeadAt(path: Text, head: Text, cs: seq<Text>, tail: Text)
    requires Spells(path, head, cs, tail)
    ensures |head| <= |path| && path[..|head|] == head
    ensures |head| < |path| ==> path[|head|] == '/'
    ensures forall j :: 0 <= j < |head| ==> path[j] != '/'
  {
    assert path == head + (Joined(cs) + tail);
    assert forall j :: 0 <= j < |head| ==> path[j] == head[j];
    if cs == [] {
      assert Joined(cs) + tail == tail;
    } else {
      assert (Joined(cs) + tail)[0] == Joined(cs)[0];
    }
  }

  /** The three spellings of the root. */
  lemma {:induction false} RootSpellings(path: Text, head: Text, cs: seq<Text>, tail: Text)
    requires Spells(path, head, cs, tail)
    ensures path == "~/" || path == "/" || path == "./" <==> cs == [] && tail == ['/'] && (head == [] || head == "~" || head == ".")
    ensures cs == [] && (head == [] || head == "~") ==> tail == ['/']
  {
    HeadAt(path, head, cs, tail);
    if cs == [] {
      assert Joined(cs) == [] && path == head + tail;
      assert |head| + |tail| == |path|;
    } else {
      ComponentSpelled(path, head, cs, tail, 0);
      FirstPlace(head, cs);
    }
  }

  /** Component `i` of a spelling stands between two slashes, or a slash and the end; only the last is followed by
      no more than a slash. */
  lemma {:induction false} ComponentSpelled(path: Text, head: Text, cs: seq<Text>, tail: Text, i: nat)
    requires Spells(path, head, cs, tail) && i < |cs|
    ensures var (at, n) := (SpelledAt(head, cs, i), |cs[i]|);
            && 1 <= at && at + n <= |path| && path[at..at + n] == cs[i] && n > 0
            && SpelledAt(head, cs, i + 1) == at + n + 1
            && (at + n < |path| ==> path[at + n] == '/')
            && (at + n >= |path| - 1 <==> i == |cs| - 1)
            && (forall j :: at <= j < at + n ==> path[j] != '/')
  {
    hide Joined;
    ComponentAt(cs, i);
    var p, at, n := Joined(cs), SpelledAt(head, cs, i), |cs[i]|;
    var x := at - |head|;
    assert path[|head|..|head| + |p|] == p;
    assert path[at..at + n] == p[x..x + n];
    assert Component(cs[i]);
    forall j | at <= j < at + n
      ensures path[j] != '/'
    {
      assert path[j] == path[at..at + n][j - at];
    }
    if at + n < |path| {
      if i + 1 < |cs| {
        assert path[at + n] == p[x + n];
      } else {
        assert path[at + n] == tail[at + n - |head| - |p|];
      }
    }
  }

  /** The path of `cs`, perhaps with a slash behind it. */
  function Spelled(cs: seq<Text>, slash: bool): Text {
    Join(cs) + (if slash && cs != [] then ['/'] else [])
  }

  lemma {:induction false} SpelledSpells(cs: seq<Text>, slash: bool)
    requires Components(cs)
    ensures Spells(Spelled(cs, slash), [], cs, if slash || cs == [] then ['/'] else [])
  {
  }

  /** With a slash behind it, the base name is empty and the parent path is the path itself. */
  lemma {:induction false} SplitSlash(cs: seq<Text>)
    requires cs != [] && Components(cs)
    ensures BaseName(Spelled(cs, true)) == [] && ParentPath(Spelled(cs, true)) == Join(cs)
  {
    var p, n := Spelled(cs, true), |Join(cs)|;
    LastSlashIs(p, n, |p|);
    assert p[..n] == Join(cs) && p[n + 1..] == [];
  }
}
