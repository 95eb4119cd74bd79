/** The handler's start-up (src/main.c): cleaning the startup string before
    it is parsed as arguments, and the init/destroy pair that owns the SMB2
    context and its connected flag. */
module HandlerMain {
  import opened Wrappers
  import opened CString
  import CType

  /** The white space of the ctype isspace, as a set for the trims. */
  const Blanks: set<char> := {'\t', '\n', 11 as char, 12 as char, '\r', ' '}

  /** isspace from include/ctype.h applied to a character of the buffer. */
  function IsSpace(c: char): (r: bool)
    ensures r <==> c in Blanks
  {
    CType.IsSpace(c as int)
  }

  /** What remove_double_quotes leaves of a string: white space trimmed at
      both ends, then an opening quote dropped and, if anything follows it,
      a closing quote dropped. */
  function Unquote(s: seq<char>): (r: seq<char>)
    ensures |r| <= |s|
  {
    var t := Trim(s, Blanks);
    if t != [] && t[0] == '"' then
      var u := t[1..];
      if u != [] && u[|u| - 1] == '"' then u[..|u| - 1] else u
    else t
  }

  /** A string wrapped in a pair of quotes comes back out unchanged. */
  lemma {:induction false} UnquoteOfQuoted(a: seq<char>)
    ensures Unquote("\"" + a + "\"") == a
  {
    var q := "\"" + a + "\"";
    TrimLeftFixed(q, Blanks);
    TrimRightFixed(q, Blanks);
    assert q[1..] == a + "\"";
    assert (a + "\"")[..|a|] == a;
  }

  /** With only an opening quote, the string comes back unchanged as long as
      it neither ends in a quote nor in white space. */
  lemma {:induction false} UnquoteOfOpenQuote(a: seq<char>)
    requires a == [] || (a[|a| - 1] != '"' && a[|a| - 1] !in Blanks)
    ensures Unquote("\"" + a) == a
  {
    var q := "\"" + a;
    TrimLeftFixed(q, Blanks);
    TrimRightFixed(q, Blanks);
    assert q[1..] == a;
  }

  /** The argument string `x"` wrapped the way the mount helper does it
      loses the quote the user typed. */
  lemma {:induction false} UnquoteLosesTypedQuote()
    ensures Unquote("\"" + "x\"") == "x"
    ensures Unquote("\"" + "x\"" + "\"") == "x\""
  {
    UnquoteOfQuoted("x\"");
    var q := "\"" + "x\"";
    TrimLeftFixed(q, Blanks);
    TrimRightFixed(q, Blanks);
    assert q[1..] == "x\"";
  }

  /** memmove towards the front of the buffer: `n` characters from `src`
      to `dst`, copied from the first on, which is safe for `dst <= src`. */
  method MemMove(a: array<char>, dst: nat, src: nat, n: nat)
    requires dst <= src && src + n <= a.Length
    modifies a
    ensures a[..] == old(a[..dst]) + old(a[src..src + n]) + old(a[dst + n..])
  {
    ghost var before := a[..];
    ghost var u := a[src..src + n];
    var i := 0;
    while i < n
      invariant i <= n
      invariant forall k {:trigger a[k]} :: 0 <= k < a.Length ==>
        a[k] == if dst <= k < dst + i then u[k - dst] else before[k]
    {
      a[dst + i] := a[src + i];
      i := i + 1;
    }
    Overwritten(a[..], before, dst, u);
  }

  /** The loops of remove_double_quotes that strip leading white space:
      `start` steps over it. */
  method StripLeading(s: seq<char>) returns (start: nat)
    requires Terminated(s, 0)
    ensures start <= Len(s, 0) && TrimLeft(Str(s, 0), Blanks) == Str(s, 0)[start..]
  {
    ghost var t := Str(s, 0);
    start := 0;
    while IsSpace(s[start])
      invariant start <= |t|
      invariant forall k :: 0 <= k < start ==> t[k] in Blanks
      decreases |t| - start
    {
      start := start + 1;
    }
    TrimLeftSkips(t, start, Blanks);
  }

  /** The loop that strips trailing white space: `end` steps back over it
      but not past `start`. */
  method StripTrailing(s: seq<char>, start: nat, end0: nat) returns (end: nat)
    requires start <= end0 <= |s|
    ensures start <= end <= end0 && TrimRight(s[start..end0], Blanks) == s[start..end]
    ensures start < end0 && s[start] !in Blanks ==> start < end
  {
    ghost var l := s[start..end0];
    end := end0;
    while end > start && IsSpace(s[end - 1])
      invariant start <= end <= end0
      invariant start < end0 && s[start] !in Blanks ==> start < end
      invariant forall k :: end - start <= k < |l| ==> l[k] in Blanks
    {
      end := end - 1;
    }
    TrimRightSkips(l, end - start, Blanks);
    assert l[..end - start] == s[start..end];
  }

  /** The first half of remove_double_quotes: `end` found by strchr, then
      white space stepped over from the front and from the back; the string
      keeps the characters from `start` up to `end`. */
  method TrimBounds(s: seq<char>) returns (start: nat, end: nat)
    requires Terminated(s, 0)
    ensures start <= end <= Len(s, 0) && s[start..end] == Trim(Str(s, 0), Blanks)
    ensures start < end || start == Len(s, 0)
  {
    ghost var t := Str(s, 0);
    end := 0;
    while s[end] != NUL
      invariant end <= |t|
      decreases |t| - end
    {
      end := end + 1;
    }
    start := StripLeading(s);
    assert t[start..] == s[start..end];
    assert start < end ==> s[start] == t[start..][0];
    end := StripTrailing(s, start, end);
  }

  /** The second half of remove_double_quotes: an opening quote at `start`
      is stepped over and then a closing quote before `end`, if one is left. */
  method QuoteBounds(s: seq<char>, start0: nat, end0: nat) returns (start: nat, end: nat)
    requires Terminated(s, 0)
    requires start0 <= end0 <= Len(s, 0) && s[start0..end0] == Trim(Str(s, 0), Blanks)
    requires start0 < end0 || start0 == Len(s, 0)
    ensures start <= end <= Len(s, 0) && s[start..end] == Unquote(Str(s, 0))
  {
    UnquoteSlice(s, Str(s, 0), start0, end0);
    start, end := start0, end0;
    if s[start] == '"' {
      start := start + 1;
      if end > start && s[end - 1] == '"' {
        end := end - 1;
      }
    }
  }

  /** Unquote read off the bounds of the trimmed string inside a buffer. */
  lemma {:induction false} UnquoteSlice(s: seq<char>, w: seq<char>, a: nat, b: nat)
    requires a <= b <= |s| && s[a..b] == Trim(w, Blanks)
    ensures a < b && s[a] == '"' && a + 1 < b && s[b - 1] == '"' ==> Unquote(w) == s[a + 1..b - 1]
    ensures a < b && s[a] == '"' && !(a + 1 < b && s[b - 1] == '"') ==> Unquote(w) == s[a + 1..b]
    ensures !(a < b && s[a] == '"') ==> Unquote(w) == s[a..b]
  {
    var t := s[a..b];
    if a < b && s[a] == '"' {
      assert t[0] == s[a];
      var u := t[1..];
      assert u == s[a + 1..b];
      if a + 1 < b {
        assert u[|u| - 1] == s[b - 1];
        assert u[..|u| - 1] == s[a + 1..b - 1];
      }
    } else if a < b {
      assert t[0] == s[a];
    }
  }

  /** remove_double_quotes: the cleaned string is moved to the front of the
      buffer and terminated there; the rest of the buffer is left as it was. */
  method RemoveDoubleQuotes(argstr: array<char>)
    requires Terminated(argstr[..], 0)
    modifies argstr
    ensures var r := Unquote(old(Str(argstr[..], 0)));
      argstr[..] == r + [NUL] + old(argstr[|r| + 1..])
    ensures Terminated(argstr[..], 0) && Str(argstr[..], 0) == Unquote(old(Str(argstr[..], 0)))
  {
    ghost var before := argstr[..];
    var start, end := TrimBounds(argstr[..]);
    start, end := QuoteBounds(argstr[..], start, end);
    var len := end - start;
    MemMove(argstr, 0, start, len);
    ghost var moved := argstr[..];
    argstr[len] := NUL;
    assert argstr[..] == moved[len := NUL];
    MovedToFront(argstr[..], moved, before, start, end, len);
  }

  /** What the move and the terminator leave in the buffer: the characters
      from `start` to `end` at its front as a string, the rest of the buffer
      as it was. */
  lemma {:induction false} MovedToFront(s: seq<char>, moved: seq<char>, before: seq<char>, start: nat, end: nat, len: nat)
    requires Terminated(before, 0) && start <= end <= Len(before, 0) && len == end - start
    requires moved == before[..0] + before[start..start + len] + before[0 + len..]
    requires s == moved[len := NUL]
    ensures s == before[start..end] + [NUL] + before[len + 1..]
    ensures Terminated(s, 0) && Str(s, 0) == before[start..end]
  {
    var r := before[start..end];
    assert before[..0] + r == r;
    Terminate(s, before, 0, r);
  }

  /** The status of AmigaDOS for a failed allocation (dos/dos.h). */
  const ERROR_NO_FREE_STORE: int := 103

  /** The source ReadArgs reads from: its buffer and the length it is told. */
  datatype CSource = CSource(buffer: seq<char>, length: int)

  /** read_startup_args up to the ReadArgs call, which is left out: the
      argument buffer is the startup string cleaned by remove_double_quotes
      and followed by one line feed, and the length handed over is its
      strlen. A failed allocation sets the I/O error and parses nothing. */
  method ReadStartupArgs(startup: seq<char>, allocOk: bool) returns (source: Option<CSource>, ioErr: int)
    requires Terminated(startup, 0)
    ensures !allocOk <==> source.None?
    ensures !allocOk ==> ioErr == ERROR_NO_FREE_STORE
    ensures source.Some? ==>
      var b := source.value.buffer;
      && Terminated(b, 0) && source.value.length == Len(b, 0)
      && Str(b, 0) == Unquote(Str(startup, 0)) + "\n"
  {
    ioErr := 0;
    var len := StrLen(startup, 0);
    if !allocOk {
      ioErr := ERROR_NO_FREE_STORE;
      return None, ioErr;
    }
    var argstr := new char[len + 2];
    CopyTerminated(argstr, 0, startup[..len]);
    WrittenString(argstr[..], argstr[..], 0, startup[..len]);
    RemoveDoubleQuotes(argstr);
    StrCat(argstr, "\n");
    var length := StrLen(argstr[..], 0);
    source := Some(CSource(argstr[..], length));
  }

  /** The libsmb2 context, seen only through what init and destroy do to it. */
  class Smb2Context {
    var shareConnected: bool
    var destroyed: bool
    var disconnects: nat

    constructor ()
      ensures !shareConnected && !destroyed && disconnects == 0
    {
      shareConnected := false;
      destroyed := false;
      disconnects := 0;
    }
  }

  /** struct smb2fs, zero-filled by calloc. */
  class Smb2fs {
    var smb2: Smb2Context?
    var connected: bool

    constructor ()
      ensures smb2 == null && !connected
    {
      smb2 := null;
      connected := false;
    }
  }

  /** The parts of a parsed SMB URL that init uses. */
  datatype Url = Url(server: string, share: string, user: string, password: Option<string>)

  /** strlcpy/snprintf into a buffer of `bytes` characters: at most
      `bytes - 1` characters survive, the rest is cut off. */
  function Truncated(s: string, bytes: nat): (r: string)
    requires bytes >= 1
    ensures |r| < bytes && r <= s
    ensures |s| < bytes ==> r == s
    ensures |s| >= bytes ==> |r| == bytes - 1
  {
    if |s| < bytes then s else s[..bytes - 1]
  }

  /** The volume name: the VOLUME argument when given, else server-share. */
  function VolumeName(volumeArg: Option<string>, url: Url, bytes: nat): (r: string)
    requires bytes >= 1
    ensures volumeArg.Some? ==> r <= volumeArg.value
    ensures volumeArg.None? ==> r <= url.server + "-" + url.share
    ensures var n := if volumeArg.Some? then |volumeArg.value| else |url.server| + 1 + |url.share|;
      |r| == if n < bytes then n else bytes - 1
  {
    Truncated(if volumeArg.Some? then volumeArg.value else url.server + "-" + url.share, bytes)
  }

  /** The password init connects with: the URL's own, else none with
      NOPASSWORD, else the answer to the password prompt. */
  function ConnectPassword(url: Url, noPassword: bool, answer: Option<string>): Option<string> {
    if url.password.Some? then url.password else if noPassword then None else answer
  }

  /** The handler's global `fsd`. */
  class Handler {
    var fsd: Smb2fs?

    constructor ()
      ensures fsd == null
    {
      fsd := null;
    }

    /** smb2fs_destroy: disconnects only a connected share, destroys the
        context, and clears `fsd`; with `fsd` already NULL it does nothing,
        so a second call is harmless. */
    method Destroy()
      modifies this, fsd, if fsd != null then {fsd.smb2} else {}
      ensures fsd == null
      ensures old(fsd) != null ==> old(fsd).smb2 == null
      ensures old(fsd) != null && old(fsd.smb2) != null ==> !old(fsd).connected
      ensures old(fsd) != null && old(fsd.smb2) != null ==>
        && old(fsd.smb2).destroyed
        && (old(fsd.connected) ==> !old(fsd.smb2).shareConnected)
        && old(fsd.smb2).disconnects == old(fsd.smb2.disconnects) + (if old(fsd.connected) then 1 else 0)
      ensures old(fsd) != null && old(fsd.smb2) != null && !old(fsd.connected) ==>
        old(fsd.smb2).shareConnected == old(fsd.smb2.shareConnected)
    {
      if fsd == null {
        return;
      }
      if fsd.smb2 != null {
        if fsd.connected {
          fsd.smb2.shareConnected := false;
          fsd.smb2.disconnects := fsd.smb2.disconnects + 1;
          fsd.connected := false;
        }
        fsd.smb2.destroyed := true;
        fsd.smb2 := null;
      }
      fsd := null;
    }

    /** The decisions of smb2fs_init. The allocations, the URL parser, the
        password prompt and smb2_connect_share are given as their outcomes.
        The prompt is shown only when the URL has no password and NOPASSWORD
        is not set; `connected` is set only after a successful connect; the
        volume name is the VOLUME argument or server-share, cut to the
        buffer. Every failure after the allocation of `fsd` destroys it. */
    method Init(callocOk: bool, contextOk: bool, url: Option<Url>, noPassword: bool, answer: Option<string>,
                connectOk: bool, volumeArg: Option<string>, volumeNameBytes: nat)
      returns (ret: Smb2fs?, prompted: bool, password: Option<string>, volumeName: string)
      requires volumeNameBytes >= 1
      modifies this
      ensures prompted <==> callocOk && contextOk && url.Some? && url.value.password.None? && !noPassword
      ensures password == if callocOk && contextOk && url.Some? then ConnectPassword(url.value, noPassword, answer) else None
      ensures ret != null <==>
        callocOk && contextOk && url.Some? && (url.value.password.Some? || noPassword || answer.Some?) && connectOk
      ensures ret == null ==> fsd == null
      ensures ret != null ==>
        && fresh(ret) && fsd == ret && ret.connected && ret.smb2 != null && ret.smb2.shareConnected
        && volumeName == VolumeName(volumeArg, url.value, volumeNameBytes)
    {
      prompted, password, volumeName, ret := false, None, [], null;
      if !callocOk {
        fsd := null;
        return;
      }
      var f := new Smb2fs();
      fsd := f;
      if !contextOk {
        Destroy();
        return;
      }
      var ctx := new Smb2Context();
      f.smb2 := ctx;
      if url.None? {
        Destroy();
        return;
      }
      var u := url.value;
      password := u.password;
      if u.password.None? && !noPassword {
        prompted := true;
        password := answer;
        if answer.None? {
          Destroy();
          return;
        }
      }
      if !connectOk {
        Destroy();
        return;
      }
      ctx.shareConnected := true;
      f.connected := true;
      volumeName := VolumeName(volumeArg, u, volumeNameBytes);
      ret := f;
    }
  }
}
