/** NUL-terminated character strings as they sit in C buffers, and the
    sequence functions the string routines of the handler are specified by. */
module CString {

  const NUL: char := '\0'

  /** A NUL occurs at or after `from`, so a C string starts there. */
  predicate Terminated(s: seq<char>, from: nat) {
    from <= |s| && NUL in s[from..]
  }

  /** `n` is the length of the string that starts at `from`. */
  ghost predicate IsLen(s: seq<char>, from: nat, n: nat) {
    from + n < |s| && s[from + n] == NUL && forall k :: from <= k < from + n ==> s[k] != NUL
  }

  lemma {:induction false} LenExists(s: seq<char>, from: nat)
    requires Terminated(s, from)
    ensures exists n: nat :: IsLen(s, from, n)
    decreases |s| - from
  {
    if s[from] == NUL {
      assert IsLen(s, from, 0);
    } else {
      assert s[from..] == [s[from]] + s[from + 1..];
      LenExists(s, from + 1);
      var n: nat :| IsLen(s, from + 1, n);
      assert IsLen(s, from, n + 1);
    }
  }

  /** strlen of the string that starts at `from`. */
  ghost function Len(s: seq<char>, from: nat): (n: nat)
    requires Terminated(s, from)
    ensures from + n < |s| && s[from + n] == NUL
    ensures forall k :: from <= k < from + n ==> s[k] != NUL
  {
    LenExists(s, from);
    var n: nat :| IsLen(s, from, n);
    n
  }

  /** The characters of the string that starts at `from`, without its NUL. */
  ghost function Str(s: seq<char>, from: nat): (t: seq<char>)
    requires Terminated(s, from)
    ensures NUL !in t && |t| == Len(s, from)
  {
    s[from..from + Len(s, from)]
  }

  /** A string is as long as the run of non-NUL characters before a NUL. */
  lemma {:induction false} LenIs(s: seq<char>, from: nat, n: nat)
    requires from + n < |s| && s[from + n] == NUL
    requires forall k :: from <= k < from + n ==> s[k] != NUL
    ensures Terminated(s, from) && Len(s, from) == n
    decreases n
  {
    assert s[from..][n] == NUL;
    if n > 0 {
      LenIs(s, from + 1, n - 1);
    }
  }

  /** A string that starts inside another one is its tail. */
  lemma {:induction false} LenFrom(s: seq<char>, p: nat)
    requires Terminated(s, 0) && p <= Len(s, 0)
    ensures Terminated(s, p) && Len(s, p) == Len(s, 0) - p
    ensures Str(s, p) == Str(s, 0)[p..]
  {
    LenIs(s, p, Len(s, 0) - p);
  }

  /** Writing `t` and a NUL at `from` makes `t` the string there. */
  lemma {:induction false} StrOfWritten(s: seq<char>, from: nat, t: seq<char>)
    requires NUL !in t && from + |t| < |s|
    requires s[from..from + |t|] == t && s[from + |t|] == NUL
    ensures Terminated(s, from) && Str(s, from) == t
  {
    forall k | from <= k < from + |t| ensures s[k] != NUL {
      assert s[k] == t[k - from];
    }
    LenIs(s, from, |t|);
  }

  /** `s` is `before` with `u` written over the positions from `from` on. */
  lemma {:induction false} Overwritten(s: seq<char>, before: seq<char>, from: nat, u: seq<char>)
    requires |s| == |before| && from + |u| <= |s|
    requires forall k {:trigger s[k]} :: 0 <= k < |s| ==> s[k] == if from <= k < from + |u| then u[k - from] else before[k]
    ensures s == before[..from] + u + before[from + |u|..]
    ensures s[..from] == before[..from] && s[from + |u|..] == before[from + |u|..]
  {
  }

  /** Writing `t` and a NUL over `before` at `from`, position by position,
      leaves `t` as the string there. */
  lemma {:induction false} WrittenString(s: seq<char>, before: seq<char>, from: nat, t: seq<char>)
    requires |s| == |before| && from + |t| < |s| && NUL !in t
    requires forall k :: 0 <= k < |s| ==>
      s[k] == if from <= k < from + |t| then t[k - from] else if k == from + |t| then NUL else before[k]
    ensures s == before[..from] + t + [NUL] + before[from + |t| + 1..]
    ensures Terminated(s, from) && Str(s, from) == t
  {
    Overwritten(s, before, from, t + [NUL]);
    StrOfWritten(s, from, t);
  }

  /** Storing a NUL just after `t`, once `t` sits at `from`, ends the
      string there. */
  lemma {:induction false} Terminate(s: seq<char>, before: seq<char>, from: nat, t: seq<char>)
    requires from + |t| < |before| && NUL !in t
    requires s == (before[..from] + t + before[from + |t|..])[from + |t| := NUL]
    ensures s == before[..from] + t + [NUL] + before[from + |t| + 1..]
    ensures Terminated(s, from) && Str(s, from) == t
  {
    assert s[from..from + |t|] == t;
    StrOfWritten(s, from, t);
  }

  function Reversed(s: seq<char>): (r: seq<char>)
    ensures |r| == |s|
  {
    if s == [] then [] else [s[|s| - 1]] + Reversed(s[..|s| - 1])
  }

  lemma {:induction false} ReversedAt(s: seq<char>, k: nat)
    requires k < |s|
    ensures Reversed(s)[k] == s[|s| - 1 - k]
  {
    if k > 0 {
      ReversedAt(s[..|s| - 1], k - 1);
    }
  }

  lemma {:induction false} ReversedTwice(s: seq<char>)
    ensures Reversed(Reversed(s)) == s
  {
    forall k | 0 <= k < |s|
      ensures Reversed(Reversed(s))[k] == s[k]
    {
      ReversedAt(Reversed(s), k);
      ReversedAt(s, |s| - 1 - k);
    }
  }

  /** Drops the characters of `spaces` at the front. */
  function TrimLeft(s: seq<char>, spaces: set<char>): (r: seq<char>)
    ensures |r| <= |s| && r == s[|s| - |r|..]
    ensures r != [] ==> r[0] !in spaces
  {
    if s != [] && s[0] in spaces then TrimLeft(s[1..], spaces) else s
  }

  /** Drops the characters of `spaces` at the back. */
  function TrimRight(s: seq<char>, spaces: set<char>): (r: seq<char>)
    ensures |r| <= |s| && r == s[..|r|]
    ensures r != [] ==> r[|r| - 1] !in spaces
  {
    if s != [] && s[|s| - 1] in spaces then TrimRight(s[..|s| - 1], spaces) else s
  }

  /** Both trims together. */
  function Trim(s: seq<char>, spaces: set<char>): seq<char> {
    TrimRight(TrimLeft(s, spaces), spaces)
  }

  /** Skipping blanks up to the first non-blank is what TrimLeft does. */
  lemma {:induction false} TrimLeftSkips(s: seq<char>, i: nat, spaces: set<char>)
    requires i <= |s| && (i == |s| || s[i] !in spaces)
    requires forall k :: 0 <= k < i ==> s[k] in spaces
    ensures TrimLeft(s, spaces) == s[i..]
  {
    if i > 0 {
      TrimLeftSkips(s[1..], i - 1, spaces);
      assert s[1..][i - 1..] == s[i..];
    }
  }

  /** Dropping blanks from the back down to the last non-blank is what
      TrimRight does. */
  lemma {:induction false} TrimRightSkips(s: seq<char>, n: nat, spaces: set<char>)
    requires n <= |s| && (n == 0 || s[n - 1] !in spaces)
    requires forall k :: n <= k < |s| ==> s[k] in spaces
    ensures TrimRight(s, spaces) == s[..n]
  {
    if n < |s| {
      TrimRightSkips(s[..|s| - 1], n, spaces);
      assert s[..|s| - 1][..n] == s[..n];
    }
  }

  lemma {:induction false} TrimLeftFixed(s: seq<char>, spaces: set<char>)
    requires s == [] || s[0] !in spaces
    ensures TrimLeft(s, spaces) == s
  {
  }

  lemma {:induction false} TrimRightFixed(s: seq<char>, spaces: set<char>)
    requires s == [] || s[|s| - 1] !in spaces
    ensures TrimRight(s, spaces) == s
  {
  }

  /** Trimming twice is trimming once, and a trimmed string is a piece of the
      original with no space at either end. */
  lemma {:induction false} TrimIdempotent(s: seq<char>, spaces: set<char>)
    ensures Trim(Trim(s, spaces), spaces) == Trim(s, spaces)
    ensures var t := Trim(s, spaces);
      t == [] || (t[0] !in spaces && t[|t| - 1] !in spaces)
  {
    var l := TrimLeft(s, spaces);
    var t := TrimRight(l, spaces);
    if t != [] {
      assert t[0] == l[0];
      TrimLeftFixed(t, spaces);
    }
    TrimRightFixed(t, spaces);
  }

  method StrLen(str: seq<char>, off: nat) returns (n: int)
    requires Terminated(str, off)
    ensures n == Len(str, off)
  {
    var s := off;
    while str[s] != NUL
      invariant off <= s <= off + Len(str, off)
      decreases off + Len(str, off) - s
    {
      s := s + 1;
    }
    n := s - off;
  }

  /** The copy loop of strcat: `src` and then its NUL written from `d` on. */
  method CopyTerminated(dst: array<char>, d: nat, src: seq<char>)
    requires NUL !in src && d + |src| < dst.Length
    modifies dst
    ensures forall k :: 0 <= k < dst.Length ==>
      dst[k] == if d <= k < d + |src| then src[k - d] else if k == d + |src| then NUL else old(dst[k])
  {
    var i := d;
    var s := 0;
    while true
      invariant i == d + s && s <= |src|
      invariant forall k :: 0 <= k < dst.Length ==> dst[k] == if d <= k < i then src[k - d] else old(dst[k])
      decreases |src| - s
    {
      var c := if s < |src| then src[s] else NUL;
      dst[i] := c;
      i, s := i + 1, s + 1;
      if c == NUL {
        break;
      }
    }
  }

  /** Copies `src` and its terminator over the NUL of the string in `dst`. */
  method StrCat(dst: array<char>, src: seq<char>)
    requires Terminated(dst[..], 0) && NUL !in src
    requires Len(dst[..], 0) + |src| < dst.Length
    modifies dst
    ensures dst[..] == old(dst[..Len(dst[..], 0)]) + src + [NUL] + old(dst[Len(dst[..], 0) + |src| + 1..])
    ensures Terminated(dst[..], 0) && Str(dst[..], 0) == old(Str(dst[..], 0)) + src
  {
    ghost var before := dst[..];
    ghost var L := Len(dst[..], 0);
    var d := 0;
    while dst[d] != NUL
      invariant d <= L
      decreases L - d
    {
      d := d + 1;
    }
    CopyTerminated(dst, d, src);
    WrittenString(dst[..], before, 0, before[..L] + src);
  }
}
