/** The mount helper (src/smb2fs.c): its own string routines, the search for
    an unused device name SMB<n>, and the startup string it hands to the
    handler. */
module Mount {
  import opened CString
  import CType

  const UINT32_LIMIT: nat := 0x1_0000_0000
  type uint32 = x: nat | x < UINT32_LIMIT

  /** The helper's own isspace: space, tab, line feed and carriage return;
      unlike the ctype one it does not accept vertical tab or form feed. */
  function IsSpace(c: char): (r: bool)
    ensures r <==> c in Spaces
  {
    c == ' ' || c == '\t' || c == '\n' || c == '\r'
  }

  lemma {:induction false} IsSpaceNarrowerThanCType(c: char)
    ensures IsSpace(c) <==> CType.IsSpace(c as int) && c as int != 11 && c as int != 12
  {
  }

  /** The characters IsSpace accepts, as the trims take them. */
  const Spaces: set<char> := {' ', '\t', '\n', '\r'}

  /** The first and last characters exchanged; the rest in place. */
  function SwapEnds(t: seq<char>): (r: seq<char>)
    ensures |r| == |t|
  {
    if |t| < 2 then t else [t[|t| - 1]] + t[1..|t| - 1] + [t[0]]
  }

  /** What position r of `t` holds once the swap loop of reverse has run i
      times from the front: a position is swapped when exactly one of it and
      its mirror image lies among the first i. */
  ghost function SwappedUpTo(t: seq<char>, i: nat, r: nat): char
    requires r < |t|
  {
    if (r < i) != (|t| - 1 - r < i) then t[|t| - 1 - r] else t[r]
  }

  /** SwappedUpTo after all but the last round is SwapEnds. */
  lemma {:induction false} SwappedFully(t: seq<char>)
    requires |t| >= 1
    ensures forall r :: 0 <= r < |t| ==> SwappedUpTo(t, |t| - 1, r) == SwapEnds(t)[r]
  {
    forall r | 0 <= r < |t|
      ensures SwappedUpTo(t, |t| - 1, r) == SwapEnds(t)[r]
    {
      if |t| >= 2 && 0 < r < |t| - 1 {
        assert SwapEnds(t)[r] == t[1..|t| - 1][r - 1];
      }
    }
  }

  /** The swap loop of reverse as written, on str[lo..hi]: `start` walks up
      from `lo` while `end` walks down from `hi - 1` to `lo`. */
  method SwapLoop(str: array<char>, lo: nat, hi: nat)
    requires lo < hi <= str.Length
    modifies str
    ensures forall k :: 0 <= k < str.Length ==>
      str[k] == if lo <= k < hi then SwappedUpTo(old(str[lo..hi]), hi - lo - 1, k - lo) else old(str[k])
  {
    ghost var t := str[lo..hi];
    var start, end := lo, hi - 1;
    while end > lo
      invariant lo <= start && lo <= end < hi && start - lo == hi - 1 - end
      invariant forall k :: 0 <= k < str.Length ==>
        str[k] == if lo <= k < hi then SwappedUpTo(t, start - lo, k - lo) else old(str[k])
    {
      var tmp := str[end];
      str[end] := str[start];
      str[start] := tmp;
      start := start + 1;
      end := end - 1;
    }
  }

  /** reverse as written. Its loop runs while `end > str` instead of
      `end > start`, so after the midpoint it swaps every pair back again:
      only the first and last characters end up exchanged. */
  method Reverse(str: array<char>, off: nat)
    requires Terminated(str[..], off)
    modifies str
    ensures str[..] == old(str[..off]) + SwapEnds(old(Str(str[..], off))) + old(str[off + Len(str[..], off)..])
  {
    ghost var before := str[..];
    ghost var t := Str(str[..], off);
    ghost var L := |t|;
    var end := off;
    while str[end] != NUL
      invariant off <= end <= off + L
      decreases off + L - end
    {
      end := end + 1;
    }
    if end > off {
      SwapLoop(str, off, end);
      SwappedFully(t);
    }
    Overwritten(str[..], before, off, SwapEnds(t));
  }

  /** The swap loop with the condition `end > start`, on str[lo..hi]. */
  method ReverseLoop(str: array<char>, lo: nat, hi: nat)
    requires lo < hi <= str.Length
    modifies str
    ensures forall k :: 0 <= k < str.Length ==>
      str[k] == if lo <= k < hi then old(str[lo + hi - 1 - k]) else old(str[k])
  {
    var start, end := lo, hi - 1;
    while end > start
      invariant lo <= start <= end + 1 && end < hi && start - lo == hi - 1 - end
      invariant forall k :: 0 <= k < str.Length ==>
        str[k] == if start <= k <= end || !(lo <= k < hi) then old(str[k]) else old(str[lo + hi - 1 - k])
    {
      var tmp := str[end];
      str[end] := str[start];
      str[start] := tmp;
      start := start + 1;
      end := end - 1;
    }
  }

  /** reverse with the loop condition `end > start`, which reverses. */
  method ReverseCorrected(str: array<char>, off: nat)
    requires Terminated(str[..], off)
    modifies str
    ensures str[..] == old(str[..off]) + Reversed(old(Str(str[..], off))) + old(str[off + Len(str[..], off)..])
  {
    ghost var before := str[..];
    ghost var t := Str(str[..], off);
    ghost var L := |t|;
    var end := off;
    while str[end] != NUL
      invariant off <= end <= off + L
      decreases off + L - end
    {
      end := end + 1;
    }
    if end > off {
      ReverseLoop(str, off, end);
      forall k | 0 <= k < L
        ensures Reversed(t)[k] == t[L - 1 - k]
      {
        ReversedAt(t, k);
      }
    }
    Overwritten(str[..], before, off, Reversed(t));
  }

  /** Swapping the ends is a reversal for strings of at most three
      characters. */
  lemma {:induction false} SwapEndsShort(t: seq<char>)
    requires |t| <= 3
    ensures SwapEnds(t) == Reversed(t)
  {
    forall k | 0 <= k < |t|
      ensures Reversed(t)[k] == t[|t| - 1 - k]
    {
      ReversedAt(t, k);
    }
  }

  /** The discrepancy: the digits of 1234 come out of u32toa as "1324". */
  lemma {:induction false} ReverseAsWrittenFails()
    ensures SwapEnds(RevDigits(1234)) == "1324"
    ensures Digits(1234) == "1234"
  {
    assert RevDigits(1) == "1" && Digits(1) == "1";
    assert RevDigits(12) == "21" && Digits(12) == "12";
    assert RevDigits(123) == "321" && Digits(123) == "123";
    assert RevDigits(1234) == "4321";
  }

  /** Below 1000 a number has at most three digits, which the as-written
      reversal still puts in order: device names up to SMB999 come out
      right. */
  lemma {:induction false} ReverseAsWrittenBelow1000(n: nat)
    requires n < 1000
    ensures SwapEnds(RevDigits(n)) == Digits(n)
  {
    assert Pow10(3) == 1000;
    DigitsLength(n, 3);
    RevDigitsReversed(n);
    SwapEndsShort(RevDigits(n));
    ReversedTwice(Digits(n));
  }

  function DigitChar(d: nat): (c: char)
    requires d < 10
    ensures '0' <= c <= '9'
  {
    ('0' as int + d) as char
  }

  /** Decimal digits of n, most significant first, with no leading zeros. */
  function Digits(n: nat): (s: seq<char>)
    ensures |s| >= 1
  {
    if n < 10 then [DigitChar(n)] else Digits(n / 10) + [DigitChar(n % 10)]
  }

  /** The digits in the order the u32toa loop writes them. */
  function RevDigits(n: nat): (s: seq<char>)
    ensures |s| >= 1
  {
    if n < 10 then [DigitChar(n)] else [DigitChar(n % 10)] + RevDigits(n / 10)
  }

  predicate AllDigits(s: seq<char>) {
    forall k :: 0 <= k < |s| ==> '0' <= s[k] <= '9'
  }

  /** The number a string of decimal digits denotes. */
  function Value(s: seq<char>): nat
    requires AllDigits(s)
  {
    if s == [] then 0 else Value(s[..|s| - 1]) * 10 + (s[|s| - 1] as int - '0' as int)
  }

  function Pow10(k: nat): nat {
    if k == 0 then 1 else 10 * Pow10(k - 1)
  }

  /** Digits is the inverse of Value; it writes digits only, never a leading
      zero except for 0 itself, and needs at most k places below 10^k. */
  lemma {:induction false} DigitsSound(n: nat)
    ensures AllDigits(Digits(n)) && Value(Digits(n)) == n
    ensures Digits(n)[0] != '0' || n == 0
  {
    if n >= 10 {
      DigitsSound(n / 10);
      var s := Digits(n);
      assert s[..|s| - 1] == Digits(n / 10);
    }
  }

  lemma {:induction false} DigitsLength(n: nat, k: nat)
    requires 1 <= k && n < Pow10(k)
    ensures |Digits(n)| <= k
  {
    if n >= 10 {
      DigitsLength(n / 10, k - 1);
    }
  }

  lemma {:induction false} RevDigitsReversed(n: nat)
    ensures RevDigits(n) == Reversed(Digits(n))
  {
    if n >= 10 {
      RevDigitsReversed(n / 10);
      var s := Digits(n);
      assert s[..|s| - 1] == Digits(n / 10);
    }
  }

  lemma {:induction false} RevDigitsNoNul(n: nat)
    ensures NUL !in RevDigits(n)
  {
    if n >= 10 {
      RevDigitsNoNul(n / 10);
    }
  }

  lemma {:induction false} DigitsOfUint32(n: uint32)
    ensures |Digits(n)| <= 10 && NUL !in Digits(n)
  {
    assert Pow10(10) == 10_000_000_000;
    DigitsLength(n, 10);
    DigitsSound(n);
  }

  /** The digit loop of u32toa: the digits of n, least significant first,
      from `off` on; `d` is where the terminator goes. */
  method WriteDigitsBackwards(n: nat, dst: array<char>, off: nat) returns (d: nat)
    requires off + |RevDigits(n)| <= dst.Length
    modifies dst
    ensures d == off + |RevDigits(n)|
    ensures dst[..] == old(dst[..off]) + RevDigits(n) + old(dst[d..])
  {
    ghost var before := dst[..];
    ghost var rev := RevDigits(n);
    d := off;
    var m: nat := n;
    while true
      invariant off <= d && d - off + |RevDigits(m)| == |rev|
      invariant rev[d - off..] == RevDigits(m)
      invariant forall k {:trigger dst[k]} :: 0 <= k < dst.Length ==> dst[k] == if off <= k < d then rev[k - off] else before[k]
      decreases m
    {
      dst[d] := DigitChar(m % 10);
      d := d + 1;
      if m < 10 {
        break;
      }
      assert rev[d - off..] == RevDigits(m)[1..];
      m := m / 10;
    }
    Overwritten(dst[..], before, off, rev);
  }

  /** The text u32toa leaves for n: the digits written least significant
      first and then reversed, where the reversal as written only exchanges
      the ends. */
  function NumText(asWritten: bool, n: nat): (t: seq<char>)
    ensures |t| == |Digits(n)|
  {
    RevDigitsReversed(n);
    if asWritten then SwapEnds(RevDigits(n)) else Digits(n)
  }

  /** Exchanging the ends twice restores the string. */
  lemma {:induction false} SwapEndsTwice(t: seq<char>)
    ensures SwapEnds(SwapEnds(t)) == t
  {
    if |t| >= 2 {
      var r := SwapEnds(t);
      assert r[0] == t[|t| - 1] && r[|r| - 1] == t[0];
      assert r[1..|r| - 1] == t[1..|t| - 1];
      assert t == [t[0]] + t[1..|t| - 1] + [t[|t| - 1]];
    }
  }

  /** Different numbers leave different texts, whichever reversal runs. */
  lemma {:induction false} NumTextInjective(asWritten: bool, a: nat, b: nat)
    ensures NumText(asWritten, a) == NumText(asWritten, b) ==> a == b
  {
    DigitsSound(a);
    DigitsSound(b);
    if NumText(asWritten, a) == NumText(asWritten, b) && asWritten {
      SwapEndsTwice(RevDigits(a));
      SwapEndsTwice(RevDigits(b));
      RevDigitsReversed(a);
      RevDigitsReversed(b);
      ReversedTwice(Digits(a));
      ReversedTwice(Digits(b));
    }
  }

  /** The text has no NUL and fits the ten places of a uint32. */
  lemma {:induction false} NumTextOfUint32(asWritten: bool, n: uint32)
    ensures |NumText(asWritten, n)| <= 10 && NUL !in NumText(asWritten, n)
  {
    DigitsOfUint32(n);
    RevDigitsReversed(n);
    RevDigitsNoNul(n);
    if asWritten && |RevDigits(n)| >= 2 {
      var t := RevDigits(n);
      assert SwapEnds(t) == [t[|t| - 1]] + t[1..|t| - 1] + [t[0]];
      assert forall c :: c in SwapEnds(t) ==> c in t;
    }
  }

  /** Writes the decimal form of n and a NUL at `off`. The digits are written
      least significant first and then handed to reverse: the one written
      (`asWritten`) or the corrected one. */
  method U32toa(n: uint32, dst: array<char>, off: nat, asWritten: bool)
    requires off + 11 <= dst.Length
    modifies dst
    ensures |NumText(asWritten, n)| <= 10
    ensures dst[..] == old(dst[..off]) + NumText(asWritten, n) + [NUL] + old(dst[off + |NumText(asWritten, n)| + 1..])
  {
    ghost var before := dst[..];
    WriteBackwardsTerminated(n, dst, off);
    ghost var mid := dst[..];
    ReverseDigits(n, dst, off, asWritten);
    Reassembled(dst[..], mid, before, off, RevDigits(n), NumText(asWritten, n));
  }

  /** The digit loop and the NUL after it: the backward digits as a string. */
  method WriteBackwardsTerminated(n: uint32, dst: array<char>, off: nat)
    requires off + 11 <= dst.Length
    modifies dst
    ensures |RevDigits(n)| <= 10
    ensures dst[..] == old(dst[..off]) + RevDigits(n) + [NUL] + old(dst[off + |RevDigits(n)| + 1..])
    ensures Terminated(dst[..], off) && Str(dst[..], off) == RevDigits(n)
  {
    DigitsOfUint32(n);
    RevDigitsReversed(n);
    RevDigitsNoNul(n);
    ghost var before := dst[..];
    var d := WriteDigitsBackwards(n, dst, off);
    dst[d] := NUL;
    Terminate(dst[..], before, off, RevDigits(n));
  }

  /** The text is what the chosen reverse makes of the backward digits. */
  lemma {:induction false} NumTextIs(asWritten: bool, n: nat)
    ensures NumText(asWritten, n) == if asWritten then SwapEnds(RevDigits(n)) else Reversed(RevDigits(n))
  {
    RevDigitsReversed(n);
    ReversedTwice(Digits(n));
  }

  /** The call to reverse in u32toa, the one written or the corrected one,
      on the backward digits of n. */
  method ReverseDigits(n: nat, str: array<char>, off: nat, asWritten: bool)
    requires Terminated(str[..], off) && Str(str[..], off) == RevDigits(n)
    modifies str
    ensures str[..] == old(str[..off]) + NumText(asWritten, n) + old(str[off + Len(str[..], off)..])
  {
    NumTextIs(asWritten, n);
    if asWritten {
      Reverse(str, off);
    } else {
      ReverseCorrected(str, off);
    }
  }

  /** The buffer after the reversal, in terms of the buffer before u32toa. */
  lemma {:induction false} Reassembled(s: seq<char>, mid: seq<char>, before: seq<char>, off: nat, rev: seq<char>, out: seq<char>)
    requires off + |rev| < |before| && |out| == |rev|
    requires mid == before[..off] + rev + [NUL] + before[off + |rev| + 1..]
    requires Terminated(mid, off) && Str(mid, off) == rev
    requires s == mid[..off] + out + mid[off + Len(mid, off)..]
    ensures s == before[..off] + out + [NUL] + before[off + |out| + 1..]
  {
    assert mid[..off] == before[..off];
    assert mid[off + |rev|..] == [NUL] + before[off + |rev| + 1..];
  }

  /** The device name tried for number n, without its colon. */
  function DevName(asWritten: bool, n: nat): seq<char> {
    "SMB" + NumText(asWritten, n)
  }

  lemma {:induction false} DevNameInjective(asWritten: bool, a: nat, b: nat)
    ensures DevName(asWritten, a) == DevName(asWritten, b) ==> a == b
  {
    NumTextInjective(asWritten, a, b);
    if DevName(asWritten, a) == DevName(asWritten, b) {
      assert NumText(asWritten, a) == DevName(asWritten, a)[3..];
    }
  }

  /** Up to SMB999 the names the probe as written tries are the intended
      ones; from SMB1000 on they are not (ReverseAsWrittenFails). */
  lemma {:induction false} DevNameBelow1000(n: nat)
    ensures n < 1000 ==> DevName(true, n) == DevName(false, n)
    ensures n == 1234 ==> DevName(true, n) == "SMB1324"
  {
    if n < 1000 {
      ReverseAsWrittenBelow1000(n);
    }
    if n == 1234 {
      ReverseAsWrittenFails();
    }
  }

  /** The names tried before number n. */
  function ProbedNames(asWritten: bool, n: nat): set<seq<char>> {
    set m | 0 <= m < n :: DevName(asWritten, m)
  }

  lemma {:induction false} ProbedNamesCount(asWritten: bool, n: nat)
    ensures |ProbedNames(asWritten, n)| == n
  {
    if n > 0 {
      var name := DevName(asWritten, n - 1);
      ProbedNamesCount(asWritten, n - 1);
      ProbedNamesSplit(asWritten, n - 1);
      if name in ProbedNames(asWritten, n - 1) {
        var m :| 0 <= m < n - 1 && DevName(asWritten, m) == name;
        DevNameInjective(asWritten, m, n - 1);
      }
    }
  }

  /** One more probe adds one name. */
  lemma {:induction false} ProbedNamesSplit(asWritten: bool, n: nat)
    ensures ProbedNames(asWritten, n + 1) == ProbedNames(asWritten, n) + {DevName(asWritten, n)}
  {
    forall x | x in ProbedNames(asWritten, n + 1)
      ensures x in ProbedNames(asWritten, n) + {DevName(asWritten, n)}
    {
      var m :| 0 <= m < n + 1 && DevName(asWritten, m) == x;
      if m < n {
        assert x in ProbedNames(asWritten, n);
      }
    }
  }

  lemma {:induction false} SubsetCard(a: set<seq<char>>, b: set<seq<char>>)
    requires a <= b
    ensures |a| <= |b|
  {
    assert b == a + (b - a);
  }

  /** A name found taken extends the run of taken names, which can be no
      longer than the set of names taken. */
  lemma {:induction false} ProbeStep(found: set<seq<char>>, asWritten: bool, n: nat)
    requires ProbedNames(asWritten, n) <= found && DevName(asWritten, n) in found
    ensures ProbedNames(asWritten, n + 1) <= found && n + 1 <= |found|
  {
    forall m | 0 <= m < n + 1
      ensures DevName(asWritten, m) in found
    {
      if m < n {
        assert DevName(asWritten, m) in ProbedNames(asWritten, n);
      }
    }
    ProbedNamesCount(asWritten, n + 1);
    SubsetCard(ProbedNames(asWritten, n + 1), found);
  }

  /** u32toa of n after the "SMB" prefix leaves the device name there. */
  lemma {:induction false} DevNameWritten(s: seq<char>, before: seq<char>, asWritten: bool, n: uint32)
    requires |before| == 16 && before[..3] == "SMB" && |NumText(asWritten, n)| <= 10
    requires s == before[..3] + NumText(asWritten, n) + [NUL] + before[3 + |NumText(asWritten, n)| + 1..]
    ensures |s| == 16 && s[..3] == "SMB"
    ensures Terminated(s, 0) && Str(s, 0) == DevName(asWritten, n)
  {
    NumTextOfUint32(asWritten, n);
    assert s[..|DevName(asWritten, n)|] == DevName(asWritten, n);
    StrOfWritten(s, 0, DevName(asWritten, n));
  }

  /** The device name: SMB followed by the smallest n whose name the DOS list
      does not hold, then a colon. `found` stands for the names FindDosEntry
      reports as present; `asWritten` picks the reversal u32toa uses. */
  method ProbeDeviceName(found: set<seq<char>>, asWritten: bool) returns (devname: array<char>, n: nat)
    requires |found| < UINT32_LIMIT
    ensures devname.Length == 16 && Terminated(devname[..], 0)
    ensures Str(devname[..], 0) == DevName(asWritten, n) + ":"
    ensures DevName(asWritten, n) !in found
    ensures forall m :: 0 <= m < n ==> DevName(asWritten, m) in found
  {
    devname := new char[16];
    devname[0], devname[1], devname[2] := 'S', 'M', 'B';
    n := 0;
    while true
      invariant devname.Length == 16 && devname[..3] == "SMB"
      invariant ProbedNames(asWritten, n) <= found && n <= |found|
      decreases |found| - n
    {
      ghost var before := devname[..];
      U32toa(n, devname, 3, asWritten);
      DevNameWritten(devname[..], before, asWritten, n);
      var len := StrLen(devname[..], 0);
      var present := devname[..len] in found;
      if !present {
        break;
      }
      ProbeStep(found, asWritten, n);
      n := n + 1;
    }
    StrCat(devname, ":");
    forall m | 0 <= m < n ensures DevName(asWritten, m) in found {
      assert DevName(asWritten, m) in ProbedNames(asWritten, n);
    }
  }

  /** The loop that strips leading white space from the argument string;
      `args` is where the string now starts and `len` its length. */
  method StripLeading(argstring: seq<char>, len0: int) returns (args: nat, len: int)
    requires Terminated(argstring, 0) && len0 == Len(argstring, 0)
    ensures args <= len0 && len == len0 - args
    ensures TrimLeft(Str(argstring, 0), Spaces) == argstring[args..len0]
  {
    ghost var t := Str(argstring, 0);
    args, len := 0, len0;
    while IsSpace(argstring[args])
      invariant args + len == |t| && 0 <= len
      invariant forall k :: 0 <= k < args ==> t[k] in Spaces
      decreases len
    {
      args := args + 1;
      len := len - 1;
    }
    TrimLeftSkips(t, args, Spaces);
  }

  /** The loop that strips trailing white space from the `len0` characters
      of the argument string from `args` on. */
  method StripTrailing(argstring: seq<char>, args: nat, len0: int) returns (len: int)
    requires 0 <= len0 && args + len0 <= |argstring|
    ensures 0 <= len <= len0
    ensures TrimRight(argstring[args..args + len0], Spaces) == argstring[args..args + len]
  {
    ghost var l := argstring[args..args + len0];
    len := len0;
    while len > 0 && IsSpace(argstring[args + len - 1])
      invariant 0 <= len <= len0
      invariant forall k :: len <= k < len0 ==> l[k] in Spaces
    {
      len := len - 1;
    }
    TrimRightSkips(l, len, Spaces);
    assert l[..len] == argstring[args..args + len];
  }

  /** Strips white space from both ends of the argument string; the result
      is the `len` characters from `args` on. */
  method TrimArgs(argstring: seq<char>) returns (args: nat, len: int)
    requires Terminated(argstring, 0)
    ensures 0 <= len && args + len <= |argstring|
    ensures argstring[args..args + len] == Trim(Str(argstring, 0), Spaces)
  {
    len := StrLen(argstring, 0);
    args, len := StripLeading(argstring, len);
    len := StripTrailing(argstring, args, len);
  }

  /** The startup string as written: an opening quote, the arguments and a
      NUL. The closing quote stored at `len + 1` is overwritten by the NUL. */
  method WrapArgs(args: seq<char>, start: nat, len: nat, allocOk: bool) returns (mdArgs: array?<char>)
    requires start + len <= |args| && NUL !in args[start..start + len]
    ensures allocOk <==> mdArgs != null
    ensures mdArgs != null ==>
      && fresh(mdArgs) && mdArgs.Length == len + 3
      && Terminated(mdArgs[..], 0) && Str(mdArgs[..], 0) == "\"" + args[start..start + len]
  {
    if !allocOk {
      return null;
    }
    mdArgs := new char[len + 3];
    mdArgs[0] := '"';
    forall k | 0 <= k < len {
      mdArgs[1 + k] := args[start + k];
    }
    mdArgs[len + 1] := '"';
    mdArgs[len + 1] := NUL;
    assert mdArgs[..len + 1] == "\"" + args[start..start + len];
    StrOfWritten(mdArgs[..], 0, "\"" + args[start..start + len]);
  }

  /** The startup string with its closing quote kept: the NUL goes one
      place further. */
  method WrapArgsQuoted(args: seq<char>, start: nat, len: nat, allocOk: bool) returns (mdArgs: array?<char>)
    requires start + len <= |args| && NUL !in args[start..start + len]
    ensures allocOk <==> mdArgs != null
    ensures mdArgs != null ==>
      && fresh(mdArgs) && mdArgs.Length == len + 3
      && Terminated(mdArgs[..], 0) && Str(mdArgs[..], 0) == "\"" + args[start..start + len] + "\""
  {
    if !allocOk {
      return null;
    }
    mdArgs := new char[len + 3];
    mdArgs[0] := '"';
    forall k | 0 <= k < len {
      mdArgs[1 + k] := args[start + k];
    }
    mdArgs[len + 1] := '"';
    mdArgs[len + 2] := NUL;
    assert mdArgs[..len + 2] == "\"" + args[start..start + len] + "\"";
    StrOfWritten(mdArgs[..], 0, "\"" + args[start..start + len] + "\"");
  }
}
