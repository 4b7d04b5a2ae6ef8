/** dir.c: `simplify_path`, with its component list, its stack and its result buffer. */
module SimplifyPath {
  import opened CText
  import opened PathNames
  import opened PathMeaning

  /** `size_t`. */
  const SIZE_MODULUS: nat := 0x1_0000_0000

  /** Cutting the path at slashes. At index 0 `end` wraps around, and so does the length computed from it. */
  method CutPath(path: Text) returns (components: seq<Text>)
    requires |path| < SIZE_MODULUS - 1
    ensures components == Parts(path)
  {
    components := [];
    var start := 0;
    for i := 0 to |path| + 1
      invariant start <= i && (i == 0 ==> components == [] && start == 0)
      invariant 0 < i <= |path| ==> components + SegmentsFrom(path, start, i) == Parts(path)
      invariant i == |path| + 1 ==> components == Parts(path)
    {
      if i == |path| || path[i] == '/' {
        var end := (i - 1) % SIZE_MODULUS;
        if start <= end {
          var compLen := (end - start + 1) % SIZE_MODULUS;
          components := components + [path[start..start + compLen]];
        }
        start := i + 1;
      }
    }
  }

  /** Processing the components into the stack. */
  method StackUp(absolute: bool, components: seq<Text>) returns (stack: seq<Text>)
    ensures stack == Reduce(absolute, components)
  {
    stack := [];
    assert components[..0] == [];
    for i := 0 to |components|
      invariant stack == Reduce(absolute, components[..i])
    {
      var comp := components[i];
      assert components[..i + 1][..i] == components[..i];
      if comp == "." {
      } else if comp == ".." {
        if absolute {
          if |stack| > 0 {
            stack := stack[..|stack| - 1];
          }
        } else if |stack| > 0 && stack[|stack| - 1] != ".." {
          stack := stack[..|stack| - 1];
        } else {
          stack := stack + [comp];
        }
      } else {
        stack := stack + [comp];
      }
    }
    assert components[..|components|] == components;
  }

  /** `total_len`. */
  method TotalLength(absolute: bool, stack: seq<Text>) returns (total: nat)
    ensures total == |Rendered(absolute, stack)|
  {
    total := 1;  // "/" or "."
    if |stack| > 0 {
      total := if absolute then 1 else 0;
      assert stack[..0] == [];
      for i := 0 to |stack|
        invariant total == (if absolute then 1 else 0) + SumLengths(stack[..i])
      {
        assert stack[..i + 1][..i] == stack[..i];
        total := total + |stack[i]|;
      }
      total := total + |stack| - 1;
      assert stack[..|stack|] == stack;
      SlashedLength(stack);
    }
  }

  /** `strcpy(buf + pos, s)`, the terminating NUL included. */
  method CopyString(buf: array<Byte>, pos: nat, s: Text)
    requires pos + |s| < buf.Length
    modifies buf
    ensures buf[..pos + |s|] == old(buf[..pos]) + s
  {
    forall j | 0 <= j < |s| {
      buf[pos + j] := s[j];
    }
    buf[pos + |s|] := NUL;
  }

  lemma {:induction false} SlashedPrefix(s: seq<Text>, i: nat)
    requires 0 < i <= |s|
    ensures |Slashed(s[..i])| <= |Slashed(s)|
    ensures i < |s| ==> Slashed(s[..i + 1]) == Slashed(s[..i]) + ['/'] + s[i] && |Slashed(s[..i + 1])| <= |Slashed(s)|
    decreases |s| - i
  {
    if i == |s| {
      assert s[..i] == s;
    } else {
      SlashedPrefix(s, i + 1);
      assert s[..i + 1][..i] == s[..i];
    }
  }

  /** `result[pos++] = '/'` and the `strcpy` behind it. */
  method AppendPart(buf: array<Byte>, pos: nat, s: Text, ghost was: Text)
    requires pos + 1 + |s| < buf.Length && buf[..pos] == was
    modifies buf
    ensures buf[..pos + 1 + |s|] == was + ['/'] + s
  {
    buf[pos] := '/';
    assert buf[..pos + 1] == was + ['/'];
    CopyString(buf, pos + 1, s);
  }

  /** The components behind one another, from `pos` on. */
  method FillParts(stack: seq<Text>, start: nat, result: array<Byte>, ghost lead: Text) returns (pos: nat)
    requires stack != [] && |lead| == start && result.Length == start + |Slashed(stack)| + 1
    requires result[..start] == lead
    modifies result
    ensures pos == result.Length - 1 && result[..pos] == lead + Slashed(stack)
  {
    hide Slashed;
    SlashedPrefix(stack, 1);
    SlashedOne(stack);
    CopyString(result, start, stack[0]);
    pos := start + |stack[0]|;
    for i := 1 to |stack|
      invariant pos == |lead| + |Slashed(stack[..i])| < result.Length
      invariant result[..pos] == lead + Slashed(stack[..i])
    {
      SlashedPrefix(stack, i);
      AppendPart(result, pos, stack[i], lead + Slashed(stack[..i]));
      assert lead + Slashed(stack[..i]) + ['/'] + stack[i] == lead + (Slashed(stack[..i]) + ['/'] + stack[i]);
      pos := pos + 1 + |stack[i]|;
    }
    assert stack[..|stack|] == stack;
  }

  lemma {:induction false} SlashedOne(stack: seq<Text>)
    requires stack != []
    ensures Slashed(stack[..1]) == stack[0]
  {
  }

  /** Filling the buffer, which `TotalLength` has made exactly large enough. */
  method FillResult(absolute: bool, stack: seq<Text>, result: array<Byte>) returns (pos: nat)
    requires result.Length == |Rendered(absolute, stack)| + 1
    modifies result
    ensures pos == result.Length - 1 && result[..pos] == Rendered(absolute, stack)
  {
    if absolute {
      result[0] := '/';
      pos := 1;
      if |stack| > 0 {
        pos := FillParts(stack, 1, result, "/");
      }
    } else if |stack| == 0 {
      result[0] := '.';
      pos := 1;
    } else {
      pos := FillParts(stack, 0, result, []);
    }
  }

  /** `simplify_path`, when there is memory for it: the result is a C string that fills its buffer exactly. */
  method Simplify(path: Text) returns (result: array<Byte>)
    requires |path| < SIZE_MODULUS - 1 && NUL !in path
    ensures fresh(result) && result.Length == |Simplified(path)| + 1
    ensures result[..result.Length - 1] == Simplified(path) && result[result.Length - 1] == NUL
  {
    var absolute := |path| > 0 && path[0] == '/';
    var components := CutPath(path);
    var stack := StackUp(absolute, components);
    var total := TotalLength(absolute, stack);
    result := new Byte[total + 1];
    var pos := FillResult(absolute, stack, result);
    result[pos] := NUL;
  }
}
