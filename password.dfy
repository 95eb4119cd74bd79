/** The hidden buffer behind the password gadget (src/gadtools/password-req.c):
    the gadget itself shows a `*` for every character typed, while its edit
    hook keeps the real characters in a buffer of its own. */
module PasswordReq {
  import opened CString

  /** The largest value of the 16-bit WORD that strmove counts with. */
  const WORD_MAX: int := 0x7FFF

  /** Message and edit-operation codes of intuition/sghooks.h. */
  const SGH_KEY: int := 1
  const EO_NOOP: int := 1
  const EO_DELBACKWARD: int := 2
  const EO_DELFORWARD: int := 3
  const EO_MOVECURSOR: int := 4
  const EO_ENTER: int := 5
  const EO_REPLACECHAR: int := 7
  const EO_INSERTCHAR: int := 8

  /** Action flags of intuition/sghooks.h. */
  const SGA_USE: bv32 := 0x1
  const SGA_BEEP: bv32 := 0x4

  /** What strmove needs of the buffer: a string at `src` and, for a move to
      the right, room for that string, its NUL and one character more at
      both ends of the move. */
  ghost predicate MoveFits(s: seq<char>, dst: nat, src: nat) {
    Terminated(s, src) &&
    (dst > src ==> dst + Len(s, src) + 2 <= |s| && Len(s, src) + 1 <= WORD_MAX)
  }

  /** The buffer after strmove(dst, src) of a string of `n` characters. A
      move to the left copies the string and its NUL; a move to the right
      copies from the back, and its count (strlen + 1, run down by a
      do/while that stops after zero) copies one character beyond the NUL
      as well. */
  function StrMoved(s: seq<char>, dst: nat, src: nat, n: nat): (r: seq<char>)
    requires src + n < |s| && (dst > src ==> dst + n + 2 <= |s|)
    ensures |r| == |s|
  {
    if dst == src then s
    else if dst < src then s[..dst] + s[src..src + n + 1] + s[dst + n + 1..]
    else s[..dst] + s[src..src + n + 2] + s[dst + n + 2..]
  }

  /** Whatever the direction, the string that was at `src` is now at `dst`,
      and nothing in front of `dst` has changed. */
  lemma {:induction false} StrMovedString(s: seq<char>, dst: nat, src: nat)
    requires MoveFits(s, dst, src)
    ensures var r := StrMoved(s, dst, src, Len(s, src));
      Terminated(r, dst) && Str(r, dst) == Str(s, src) && r[..dst] == s[..dst]
  {
    var n := Len(s, src);
    var r := StrMoved(s, dst, src, n);
    var t := Str(s, src);
    if dst != src {
      var k := if dst < src then n + 1 else n + 2;
      var b := s[src..src + k];
      assert r == s[..dst] + b + s[dst + k..];
      assert r[dst..dst + n] == b[..n] == t;
      assert r[dst + n] == b[n] == NUL;
      StrOfWritten(r, dst, t);
    }
  }

  /** The forward loop of strmove, for dst < src, over a string of `n`
      characters at `src`. Every character is read before anything is
      written over it, because the writes trail the reads. */
  method MoveLeft(buf: array<char>, dst: nat, src: nat, ghost n: nat)
    requires dst < src && src + n < buf.Length && buf[src + n] == NUL
    requires forall k :: src <= k < src + n ==> buf[k] != NUL
    modifies buf
    ensures buf[..] == StrMoved(old(buf[..]), dst, src, n)
  {
    ghost var before := buf[..];
    var d, s := dst, src;
    while true
      invariant s == src + (d - dst) && d - dst <= n
      invariant forall k {:trigger buf[k]} :: 0 <= k < buf.Length ==>
        buf[k] == if dst <= k < d then old(buf[src + (k - dst)]) else old(buf[k])
      decreases n - (d - dst)
    {
      var c := buf[s];
      buf[d] := c;
      d, s := d + 1, s + 1;
      if c == NUL {
        break;
      }
    }
    Overwritten(buf[..], before, dst, before[src..src + n + 1]);
  }

  /** The backward loop of strmove, for dst > src, over a string of `n`
      characters at `src`: the scan to one past the NUL, then a do/while
      over len = n + 1 that copies len + 1 characters from the back. */
  method MoveRight(buf: array<char>, dst: nat, src: nat, ghost n: nat)
    requires dst > src && dst + n + 2 <= buf.Length && buf[src + n] == NUL
    requires forall k :: src <= k < src + n ==> buf[k] != NUL
    modifies buf
    ensures buf[..] == StrMoved(old(buf[..]), dst, src, n)
  {
    ghost var before := buf[..];
    var s := src;
    while buf[s] != NUL
      invariant src <= s <= src + n
      decreases src + n - s
    {
      s := s + 1;
    }
    s := s + 1;
    var len := s - src;
    var d: int := dst + len;
    var i := len;
    while true
      invariant 0 <= i <= len && d == dst + i && s == src + i
      invariant forall k {:trigger buf[k]} :: 0 <= k < buf.Length ==>
        buf[k] == if d < k <= dst + len then old(buf[src + (k - dst)]) else old(buf[k])
      decreases i
    {
      buf[d] := buf[s];
      d, s := d - 1, s - 1;
      if i == 0 {
        break;
      }
      i := i - 1;
    }
    Overwritten(buf[..], before, dst, before[src..src + n + 2]);
  }

  /** strmove: the string at `src` moved within the same buffer to `dst`. */
  method StrMove(buf: array<char>, dst: nat, src: nat)
    requires MoveFits(buf[..], dst, src)
    modifies buf
    ensures buf[..] == StrMoved(old(buf[..]), dst, src, Len(old(buf[..]), src))
  {
    ghost var before := buf[..];
    ghost var n := Len(before, src);
    if dst != src {
      if dst < src {
        MoveLeft(buf, dst, src, n);
      } else {
        MoveRight(buf, dst, src, n);
      }
    }
  }

  /** The actions of a refused edit: not used, and a beep. */
  function Refused(actions: bv32): (r: bv32)
    ensures r & SGA_USE == 0 && r & SGA_BEEP == SGA_BEEP
    ensures r & !(SGA_USE | SGA_BEEP) == actions & !(SGA_USE | SGA_BEEP)
  {
    (actions & !SGA_USE) | SGA_BEEP
  }

  /** The part of struct SGWork the hook reads and writes. `prevNumChars`
      is the character count of the gadget's StringInfo before the edit,
      `numChars` the count after it. */
  class SGWork {
    const workBuffer: array<char>
    var editOp: int
    var code: char
    var bufferPos: int
    var numChars: int
    var prevNumChars: int
    var actions: bv32

    /** The default case: the edit is not used, and the gadget beeps. */
    method Refuse()
      modifies this`actions
      ensures actions == Refused(old(actions))
    {
      actions := actions & !SGA_USE;
      actions := actions | SGA_BEEP;
    }

    constructor (workBuffer: array<char>, editOp: int, code: char, bufferPos: int,
                 numChars: int, prevNumChars: int, actions: bv32)
      ensures this.workBuffer == workBuffer && this.editOp == editOp && this.code == code
      ensures this.bufferPos == bufferPos && this.numChars == numChars
      ensures this.prevNumChars == prevNumChars && this.actions == actions
    {
      this.workBuffer := workBuffer;
      this.editOp := editOp;
      this.code := code;
      this.bufferPos := bufferPos;
      this.numChars := numChars;
      this.prevNumChars := prevNumChars;
      this.actions := actions;
    }
  }

  predicate IsDelete(op: int) {
    op == EO_DELBACKWARD || op == EO_DELFORWARD
  }

  /** The edit operations the hook handles; any other one is refused. */
  predicate Handled(op: int) {
    op == EO_NOOP || op == EO_MOVECURSOR || op == EO_ENTER || IsDelete(op) ||
    op == EO_REPLACECHAR || op == EO_INSERTCHAR
  }

  /** What an edit needs of the hidden buffer: the position it writes exists
      and the move it makes fits. */
  ghost predicate HiddenFits(op: int, s: seq<char>, pos: int, numChars: int, prevNumChars: int) {
    if IsDelete(op) then
      numChars < prevNumChars ==> 0 <= pos && MoveFits(s, pos, pos + (prevNumChars - numChars))
    else if op == EO_REPLACECHAR then
      1 <= pos <= |s|
    else if op == EO_INSERTCHAR then
      1 <= pos && MoveFits(s, pos, pos - 1)
    else true
  }

  /** What an edit needs of both buffers. */
  ghost predicate EditFits(op: int, s: seq<char>, pos: int, numChars: int, prevNumChars: int, workLength: nat) {
    HiddenFits(op, s, pos, numChars, prevNumChars) &&
    (op == EO_REPLACECHAR || op == EO_INSERTCHAR ==> pos <= workLength)
  }

  /** The REPLACECHAR case: a `*` shown, the character itself kept. */
  method ReplaceChar(buffer: array<char>, workBuffer: array<char>, pos: int, code: char)
    requires buffer != workBuffer && 1 <= pos <= workBuffer.Length && pos <= buffer.Length
    modifies buffer, workBuffer
    ensures buffer[..] == old(buffer[..])[pos - 1 := code]
    ensures workBuffer[..] == old(workBuffer[..])[pos - 1 := '*']
  {
    workBuffer[pos - 1] := '*';
    buffer[pos - 1] := code;
  }

  /** The INSERTCHAR case: a `*` shown, the rest of the hidden string moved
      up by one and the character put in the gap. */
  method InsertChar(buffer: array<char>, workBuffer: array<char>, pos: int, code: char)
    requires buffer != workBuffer && 1 <= pos <= workBuffer.Length && MoveFits(buffer[..], pos, pos - 1)
    modifies buffer, workBuffer
    ensures buffer[..] == StrMoved(old(buffer[..]), pos, pos - 1, Len(old(buffer[..]), pos - 1))[pos - 1 := code]
    ensures workBuffer[..] == old(workBuffer[..])[pos - 1 := '*']
  {
    workBuffer[pos - 1] := '*';
    StrMove(buffer, pos, pos - 1);
    buffer[pos - 1] := code;
  }

  /** The room an insert needs: a move to the right of the hidden string of
      L characters from the cursor writes up to index L + 2, so the buffer
      must have L + 3 places. In the requester's 256-byte buffer the hidden
      string can therefore hold at most 253 characters before an insert. */
  lemma {:induction false} InsertRoom(s: seq<char>, pos: nat)
    requires Terminated(s, 0) && 1 <= pos <= Len(s, 0) + 1
    ensures MoveFits(s, pos, pos - 1) <==> Len(s, 0) + 3 <= |s| && Len(s, 0) + 2 - pos <= WORD_MAX
    ensures |s| == 256 ==> (MoveFits(s, pos, pos - 1) <==> Len(s, 0) <= 253)
  {
    LenFrom(s, pos - 1);
  }

  /** The DELBACKWARD and DELFORWARD cases: when the gadget has fewer
      characters than before, as many are removed from the hidden string at
      the cursor. */
  method DeleteEdit(buffer: array<char>, sgw: SGWork)
    requires HiddenFits(EO_DELBACKWARD, buffer[..], sgw.bufferPos, sgw.numChars, sgw.prevNumChars)
    modifies buffer
    ensures var pos, cnt := old(sgw.bufferPos), old(sgw.prevNumChars - sgw.numChars);
      buffer[..] == if cnt > 0 then StrMoved(old(buffer[..]), pos, pos + cnt, Len(old(buffer[..]), pos + cnt)) else old(buffer[..])
  {
    if sgw.numChars < sgw.prevNumChars {
      var cnt := sgw.prevNumChars - sgw.numChars;
      StrMove(buffer, sgw.bufferPos, sgw.bufferPos + cnt);
    }
  }

  /** The cases of the switch that write a character, and the default. */
  method CharEdit(buffer: array<char>, sgw: SGWork)
    requires buffer != sgw.workBuffer
    requires EditFits(sgw.editOp, buffer[..], sgw.bufferPos, sgw.numChars, sgw.prevNumChars, sgw.workBuffer.Length)
    modifies buffer, sgw.workBuffer, sgw`actions
    ensures old(sgw.editOp) == EO_REPLACECHAR ==>
      && buffer[..] == old(buffer[..])[old(sgw.bufferPos) - 1 := old(sgw.code)]
      && sgw.workBuffer[..] == old(sgw.workBuffer[..])[old(sgw.bufferPos) - 1 := '*'] && sgw.actions == old(sgw.actions)
    ensures old(sgw.editOp) == EO_INSERTCHAR ==>
      var pos := old(sgw.bufferPos);
      && buffer[..] == StrMoved(old(buffer[..]), pos, pos - 1, Len(old(buffer[..]), pos - 1))[pos - 1 := old(sgw.code)]
      && sgw.workBuffer[..] == old(sgw.workBuffer[..])[pos - 1 := '*'] && sgw.actions == old(sgw.actions)
    ensures old(sgw.editOp) != EO_REPLACECHAR && old(sgw.editOp) != EO_INSERTCHAR ==>
      && buffer[..] == old(buffer[..]) && sgw.workBuffer[..] == old(sgw.workBuffer[..])
      && sgw.actions == Refused(old(sgw.actions))
  {
    var op := sgw.editOp;
    var pos := sgw.bufferPos;
    if op == EO_REPLACECHAR {
      ReplaceChar(buffer, sgw.workBuffer, pos, sgw.code);
    } else if op == EO_INSERTCHAR {
      InsertChar(buffer, sgw.workBuffer, pos, sgw.code);
    } else {
      sgw.Refuse();
    }
  }

  /** edithook_entry: for a key message, every typed character shows as `*`
      in the gadget's work buffer and is kept in the hidden buffer, deletions
      are mirrored there, and an edit the hook does not handle is refused
      with a beep. Other messages are left to the gadget. */
  method EditHook(buffer: array<char>, sgw: SGWork, msg: int) returns (res: bool)
    requires buffer != sgw.workBuffer
    requires msg == SGH_KEY ==>
      EditFits(sgw.editOp, buffer[..], sgw.bufferPos, sgw.numChars, sgw.prevNumChars, sgw.workBuffer.Length)
    modifies buffer, sgw.workBuffer, sgw`actions
    ensures res <==> msg == SGH_KEY
    ensures (msg != SGH_KEY || (Handled(old(sgw.editOp)) && !IsDelete(old(sgw.editOp)) &&
        old(sgw.editOp) != EO_REPLACECHAR && old(sgw.editOp) != EO_INSERTCHAR)) ==>
      buffer[..] == old(buffer[..]) && sgw.workBuffer[..] == old(sgw.workBuffer[..]) && sgw.actions == old(sgw.actions)
    ensures msg == SGH_KEY && IsDelete(old(sgw.editOp)) ==>
      var pos, cnt := old(sgw.bufferPos), old(sgw.prevNumChars) - old(sgw.numChars);
      && buffer[..] == (if cnt > 0 then StrMoved(old(buffer[..]), pos, pos + cnt, Len(old(buffer[..]), pos + cnt)) else old(buffer[..]))
      && sgw.workBuffer[..] == old(sgw.workBuffer[..]) && sgw.actions == old(sgw.actions)
    ensures msg == SGH_KEY && old(sgw.editOp) == EO_REPLACECHAR ==>
      && buffer[..] == old(buffer[..])[old(sgw.bufferPos) - 1 := old(sgw.code)]
      && sgw.workBuffer[..] == old(sgw.workBuffer[..])[old(sgw.bufferPos) - 1 := '*'] && sgw.actions == old(sgw.actions)
    ensures msg == SGH_KEY && old(sgw.editOp) == EO_INSERTCHAR ==>
      var pos := old(sgw.bufferPos);
      && buffer[..] == StrMoved(old(buffer[..]), pos, pos - 1, Len(old(buffer[..]), pos - 1))[pos - 1 := old(sgw.code)]
      && sgw.workBuffer[..] == old(sgw.workBuffer[..])[pos - 1 := '*'] && sgw.actions == old(sgw.actions)
    ensures msg == SGH_KEY && !Handled(old(sgw.editOp)) ==>
      && buffer[..] == old(buffer[..]) && sgw.workBuffer[..] == old(sgw.workBuffer[..])
      && sgw.actions == Refused(old(sgw.actions))
  {
    res := true;
    if msg == SGH_KEY {
      var op := sgw.editOp;
      var pos := sgw.bufferPos;
      if op == EO_NOOP || op == EO_MOVECURSOR || op == EO_ENTER {
      } else if IsDelete(op) {
        DeleteEdit(buffer, sgw);
      } else {
        CharEdit(buffer, sgw);
      }
    } else {
      res := false;
    }
  }

  /** Inserting a character into the hidden password inserts it into the
      string: the rest of the password moves up by one. */
  lemma {:induction false} InsertMirrors(s: seq<char>, pos: nat, code: char)
    requires Terminated(s, 0) && 1 <= pos <= Len(s, 0) + 1 && code != NUL
    requires MoveFits(s, pos, pos - 1)
    ensures var r := StrMoved(s, pos, pos - 1, Len(s, pos - 1))[pos - 1 := code];
      Terminated(r, 0) && Str(r, 0) == Str(s, 0)[..pos - 1] + [code] + Str(s, 0)[pos - 1..]
  {
    var p := pos - 1;
    var m := Len(s, 0);
    LenFrom(s, p);
    var moved := StrMoved(s, pos, p, Len(s, p));
    StrMovedString(s, pos, p);
    var r := moved[p := code];
    var w := Str(s, 0)[..p] + [code] + Str(s, 0)[p..];
    assert Str(r, pos) == Str(moved, pos) by {
      assert r[pos..] == moved[pos..];
    }
    assert r[..m + 1] == w by {
      assert r[..p] == s[..p];
      assert r[pos..pos + (m - p)] == Str(s, p);
    }
    assert r[m + 1] == NUL;
    StrOfWritten(r, 0, w);
  }

  /** Removing `cnt` characters at `pos` removes them from the string. */
  lemma {:induction false} DeleteMirrors(s: seq<char>, pos: nat, cnt: nat)
    requires Terminated(s, 0) && 0 < cnt && pos + cnt <= Len(s, 0)
    ensures MoveFits(s, pos, pos + cnt)
    ensures var r := StrMoved(s, pos, pos + cnt, Len(s, pos + cnt));
      Terminated(r, 0) && Str(r, 0) == Str(s, 0)[..pos] + Str(s, 0)[pos + cnt..]
  {
    var m := Len(s, 0);
    LenFrom(s, pos + cnt);
    var n := Len(s, pos + cnt);
    DeleteSlices(s, pos, cnt, n);
    var t := Str(s, 0);
    StrOfWritten(StrMoved(s, pos, pos + cnt, n), 0, t[..pos] + t[pos + cnt..]);
  }

  /** The slices of a deletion of `cnt` characters at `pos` from a string of
      `pos + cnt + n` characters. */
  lemma {:induction false} DeleteSlices(s: seq<char>, pos: nat, cnt: nat, n: nat)
    requires pos + cnt + n < |s|
    ensures var r := s[..pos] + s[pos + cnt..pos + cnt + n + 1] + s[pos + n + 1..];
      var t := s[..pos + cnt + n];
      r[..pos + n] == t[..pos] + t[pos + cnt..] && r[pos + n] == s[pos + cnt + n]
  {
  }

  /** Replacing a character of the password replaces it in the string. */
  lemma {:induction false} ReplaceMirrors(s: seq<char>, pos: nat, code: char)
    requires Terminated(s, 0) && 1 <= pos <= Len(s, 0) && code != NUL
    ensures var r := s[pos - 1 := code];
      Terminated(r, 0) && Str(r, 0) == Str(s, 0)[pos - 1 := code]
  {
    var r := s[pos - 1 := code];
    var w := Str(s, 0)[pos - 1 := code];
    assert r[..Len(s, 0)] == w;
    StrOfWritten(r, 0, w);
  }

  /** Inserting a character and deleting it again gives back the password. */
  lemma {:induction false} InsertThenDelete(s: seq<char>, pos: nat, code: char)
    requires Terminated(s, 0) && 1 <= pos <= Len(s, 0) + 1 && code != NUL
    requires MoveFits(s, pos, pos - 1)
    ensures var r := StrMoved(s, pos, pos - 1, Len(s, pos - 1))[pos - 1 := code];
      Terminated(r, 0) && pos <= Len(r, 0) &&
      var back := StrMoved(r, pos - 1, pos, Len(r, pos));
      Terminated(back, 0) && Str(back, 0) == Str(s, 0)
  {
    var p := pos - 1;
    var r := StrMoved(s, pos, p, Len(s, p))[p := code];
    InsertMirrors(s, pos, code);
    var t, u := Str(s, 0), Str(r, 0);
    assert u[..p] == t[..p] && u[p + 1..] == t[p..];
    DeleteMirrors(r, p, 1);
    assert u[..p] + u[p + 1..] == t;
  }
}
