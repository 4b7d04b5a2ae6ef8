/** terminal_manager.c and keyboard.c: the line a terminal collects, and the processes that wait for it. */
module TerminalInput {
  import opened ProcessTable
  import opened ProcessManager

  const INPUT_BUFFER_SIZE: nat := 256
  const BACKSPACE: char := '\U{0008}'
  const NEWLINE: char := '\n'

  /** A key: what it means without a modifier, and the character it stands for with the modifiers held. */
  datatype Key = Key(plain: char, shown: char)

  /** The line after one more key. */
  function Edited(line: seq<char>, k: Key): (r: seq<char>) {
    if k.plain != BACKSPACE then line + [k.shown] else if line == [] then [] else line[..|line| - 1]
  }

  function Typed(line: seq<char>, keys: seq<Key>): (r: seq<char>) {
    if keys == [] then line else Edited(Typed(line, keys[..|keys| - 1]), keys[|keys| - 1])
  }

  ghost predicate Text(keys: seq<Key>) {
    forall i :: 0 <= i < |keys| ==> keys[i].plain != BACKSPACE
  }

  function Shown(keys: seq<Key>): (r: seq<char>)
    ensures |r| == |keys|
  {
    seq(|keys|, i requires 0 <= i < |keys| => keys[i].shown)
  }

  lemma {:induction false} TypedAppend(line: seq<char>, a: seq<Key>, b: seq<Key>)
    ensures Typed(line, a + b) == Typed(Typed(line, a), b)
  {
    if b == [] {
      assert a + b == a;
    } else {
      TypedAppend(line, a, b[..|b| - 1]);
      assert (a + b)[..|a + b| - 1] == a + b[..|b| - 1];
    }
  }

  lemma {:induction false} TypedText(line: seq<char>, keys: seq<Key>)
    requires Text(keys)
    ensures Typed(line, keys) == line + Shown(keys)
  {
    if keys != [] {
      TypedText(line, keys[..|keys| - 1]);
      assert Shown(keys) == Shown(keys[..|keys| - 1]) + [keys[|keys| - 1].shown];
    }
  }

  lemma {:induction false} Erased(line: seq<char>, keys: seq<Key>)
    requires forall i :: 0 <= i < |keys| ==> keys[i].plain == BACKSPACE
    ensures Typed(line, keys) == if |keys| <= |line| then line[..|line| - |keys|] else []
  {
    if keys != [] {
      Erased(line, keys[..|keys| - 1]);
    }
  }

  /** As many backspaces as characters undo what was typed, whatever was on the line before. */
  lemma {:induction false} TypeThenErase(line: seq<char>, text: seq<Key>, back: seq<Key>)
    requires Text(text) && |back| == |text| && forall i :: 0 <= i < |back| ==> back[i].plain == BACKSPACE
    ensures Typed(line, text + back) == line
  {
    TypedAppend(line, text, back);
    TypedText(line, text);
    Erased(line + Shown(text), back);
    assert (line + Shown(text))[..|line|] == line;
  }

  class Terminal {
    const id: nat
    const inputBuf: array<char>
    var inputLen: nat
    var isInputReady: bool

    constructor (id: nat)
      ensures Valid() && Line() == [] && !isInputReady && this.id == id && fresh(inputBuf)
    {
      this.id, inputLen, isInputReady := id, 0, false;
      inputBuf := new char[INPUT_BUFFER_SIZE](_ => '\0');
    }

    ghost predicate Valid()
      reads this
    {
      inputBuf.Length == INPUT_BUFFER_SIZE && inputLen <= INPUT_BUFFER_SIZE
    }

    /** What has been typed and not been read. */
    ghost function Line(): seq<char>
      reads this, inputBuf
      requires Valid()
    {
      inputBuf[..inputLen]
    }

    /** The editing part of `keyboard_handler`. Nothing in it looks whether the buffer is full. */
    method EditLine(k: Key)
      requires Valid() && (k.plain != BACKSPACE ==> inputLen < INPUT_BUFFER_SIZE)
      modifies this`inputLen, inputBuf
      ensures Valid() && Line() == Edited(old(Line()), k)
    {
      if k.plain == BACKSPACE {
        if inputLen > 0 {
          inputLen := inputLen - 1;
          inputBuf[inputLen] := '\0';
        }
      } else {
        inputBuf[inputLen] := k.shown;
        inputLen := inputLen + 1;
      }
    }

    /** A key press on the active terminal. Before the first switch there is no current process to start the
        wake-up from. */
    method KeyPress(mgr: Manager, k: Key, ghost s: Sys)
      requires Valid() && mgr.Valid() && mgr.cur >= 0 && s == mgr.View(isInputReady, id)
      requires k.plain != BACKSPACE ==> inputLen < INPUT_BUFFER_SIZE
      modifies this, inputBuf, mgr.list`state
      ensures Valid() && mgr.Valid() && Line() == Edited(old(Line()), k)
      ensures isInputReady <==> old(isInputReady) || k.plain == NEWLINE
      ensures if k.plain == NEWLINE then Entered(s, mgr.View(isInputReady, id)) else mgr.View(isInputReady, id) == s
    {
      hide WakeReaders, Manager.Values, Manager.ListOk, Manager.Nth, Manager.VisitedInOrder;
      EditLine(k);
      if k.plain == NEWLINE {
        isInputReady := true;
        ghost var visited := mgr.WakeUpTerminalProcesses(id);
      }
    }

    /** One turn of the loop in `read_terminal_input`, and the copying behind it. A line is taken as a whole:
        what the reader has no room for is dropped. */
    method ReadTurn(mgr: Manager, count: nat, ghost s: Sys) returns (taken: bool, data: seq<char>)
      requires Valid() && mgr.Valid() && mgr.cur >= 0 && s == mgr.View(isInputReady, id)
      modifies this, inputBuf, mgr.list`state
      ensures Valid() && mgr.Valid() && Polled(s, mgr.View(isInputReady, id), taken)
      ensures taken == old(isInputReady) && !isInputReady
      ensures !taken ==> mgr.current != null && mgr.current.state == BLOCKED
      ensures if taken then data == old(Line())[..if count < |old(Line())| then count else |old(Line())|] && Line() == []
              else data == [] && Line() == old(Line())
    {
      hide Manager.Values, Manager.ListOk, SetState;
      if !isInputReady {
        assert mgr.current in mgr.list;
        mgr.SetNodeState(mgr.current, BLOCKED, mgr.cur);
        return false, [];
      }
      var copyLen := count;
      isInputReady := false;
      if count > inputLen {
        copyLen := inputLen;
      }
      data := inputBuf[..copyLen];
      forall i | 0 <= i < INPUT_BUFFER_SIZE {
        inputBuf[i] := '\0';
      }
      inputLen := 0;
      taken := true;
    }
  }

  /** Some keys, a newline, and the next turn of a reader: the reader takes the line, and gets what was typed, the
      newline included, as far as it has room. */
  method TypeAndRead(t: Terminal, mgr: Manager, keys: seq<Key>, newline: Key, count: nat)
    returns (taken: bool, data: seq<char>)
    requires t.Valid() && mgr.Valid() && mgr.cur >= 0 && newline.plain == NEWLINE
    requires t.inputLen + |keys| < INPUT_BUFFER_SIZE
    modifies t, t.inputBuf, mgr.list`state
    ensures t.Valid() && mgr.Valid() && taken && t.Line() == []
    ensures var line := Typed(old(t.Line()), keys + [newline]);
            data == line[..if count < |line| then count else |line|]
  {
    hide Manager.Values, Manager.ListOk, Manager.Nth, Entered, Polled, Edited, Manager.Valid, Typed;
    ghost var before := t.Line();
    TypedOne(before, []);
    assert keys[..0] == [];
    for i := 0 to |keys|
      invariant t.Valid() && mgr.Valid() && t.Line() == Typed(before, keys[..i]) && t.inputLen <= old(t.inputLen) + i
    {
      TypedOne(before, keys[..i + 1]);
      assert keys[..i + 1][..i] == keys[..i];
      EditedLength(t.Line(), keys[i]);
      t.KeyPress(mgr, keys[i], mgr.View(t.isInputReady, t.id));
    }
    TypedOne(before, keys + [newline]);
    assert keys[..|keys|] == keys && (keys + [newline])[..|keys|] == keys;
    t.KeyPress(mgr, newline, mgr.View(t.isInputReady, t.id));
    taken, data := t.ReadTurn(mgr, count, mgr.View(t.isInputReady, t.id));
  }

  lemma {:induction false} TypedOne(line: seq<char>, keys: seq<Key>)
    ensures Typed(line, []) == line
    ensures keys != [] ==> Typed(line, keys) == Edited(Typed(line, keys[..|keys| - 1]), keys[|keys| - 1])
  {
  }

  lemma {:induction false} EditedLength(line: seq<char>, k: Key)
    ensures |Edited(line, k)| <= |line| + 1
  {
  }
}
