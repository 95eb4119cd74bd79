/** Setting a file's times over SMB2 (src/smb2_utimens.c): two compounded
    requests, CREATE + QUERY_INFO + CLOSE and CREATE + SET_INFO + CLOSE,
    whose callbacks keep the first failing status, and the synchronous
    wrapper that waits for each of them. The network is an oracle: every
    allocation or PDU construction that may fail is a boolean, and the
    poll/service rounds of the wait loop are a script. */
module Utimens {
  import opened Wrappers

  const UINT32_LIMIT: nat := 0x1_0000_0000
  type uint32 = x: nat | x < UINT32_LIMIT

  const SMB2_STATUS_SUCCESS: uint32 := 0
  /** STATUS_CANCELLED, 0xC0000120, as it reads once stored in an int. */
  const CANCELLED_AS_INT: int := 0xC000_0120 - UINT32_LIMIT
  const ENOMEM: int := 12

  /** struct smb2_timeval */
  datatype TimeVal = TimeVal(sec: int, usec: int)

  /** struct smb2_file_basic_info: FILE_BASIC_INFORMATION of [MS-FSCC]
      section 2.4.7. */
  datatype BasicInfo = BasicInfo(creationTime: TimeVal, lastAccessTime: TimeVal,
                                 lastWriteTime: TimeVal, changeTime: TimeVal,
                                 fileAttributes: uint32)

  /** struct timespec */
  datatype Timespec = Timespec(sec: int, nsec: int)

  /** C's `n / 1000`: the quotient truncated toward zero. */
  function Div1000(n: int): (q: int)
    ensures n >= 0 ==> 0 <= q * 1000 <= n < q * 1000 + 1000
    ensures n < 0 ==> q * 1000 - 1000 < n <= q * 1000 <= 0
  {
    if n >= 0 then n / 1000 else -((-n) / 1000)
  }

  /** The basic information smb2_utimens sends back: the last write and
      change times become tv[0], in microseconds; the creation and access
      times and the attributes are the ones queried. */
  function UpdateTimes(info: BasicInfo, tv0: Timespec): (r: BasicInfo)
    ensures r.creationTime == info.creationTime && r.lastAccessTime == info.lastAccessTime
    ensures r.fileAttributes == info.fileAttributes
    ensures r.lastWriteTime == r.changeTime == TimeVal(tv0.sec, Div1000(tv0.nsec))
    ensures 0 <= tv0.nsec < 1_000_000_000 ==>
      r.lastWriteTime.usec == tv0.nsec / 1000 && r.lastWriteTime.usec < 1_000_000
  {
    var t := TimeVal(tv0.sec, Div1000(tv0.nsec));
    info.(lastWriteTime := t, changeTime := t)
  }

  /** Two queried records lead to the same update exactly when they agree on
      everything the update keeps. */
  lemma {:induction false} UpdateTimesKeepsOnly(a: BasicInfo, b: BasicInfo, tv0: Timespec)
    ensures UpdateTimes(a, tv0) == UpdateTimes(b, tv0) <==>
      a.creationTime == b.creationTime && a.lastAccessTime == b.lastAccessTime &&
      a.fileAttributes == b.fileAttributes
  {
    if UpdateTimes(a, tv0) == UpdateTimes(b, tv0) {
      assert UpdateTimes(a, tv0).creationTime == UpdateTimes(b, tv0).creationTime;
    }
  }

  // ---------------------------------------------------------------------
  // Status aggregation of a compound ([MS-SMB2] section 3.2.4.1.4)

  /** The aggregated status after one more reply: once a reply has failed,
      its status sticks. */
  function Merge(agg: uint32, status: uint32): uint32 {
    if agg == SMB2_STATUS_SUCCESS then status else agg
  }

  /** The callbacks of one compound run in reply order, each merging its
      reply's status into the record. */
  function Aggregate(agg: uint32, replies: seq<uint32>): uint32
    decreases replies
  {
    if replies == [] then agg else Aggregate(Merge(agg, replies[0]), replies[1..])
  }

  /** The reference: the first reply that is not SUCCESS, or SUCCESS. */
  function FirstFailure(replies: seq<uint32>): uint32 {
    if replies == [] then SMB2_STATUS_SUCCESS
    else if replies[0] != SMB2_STATUS_SUCCESS then replies[0]
    else FirstFailure(replies[1..])
  }

  /** Merging replies into a record keeps a failure already there, and from
      SUCCESS yields the first failing reply. */
  lemma {:induction false} AggregateIsFirstFailure(agg: uint32, replies: seq<uint32>)
    ensures Aggregate(agg, replies) == if agg == SMB2_STATUS_SUCCESS then FirstFailure(replies) else agg
    decreases replies
  {
    if replies != [] {
      AggregateIsFirstFailure(Merge(agg, replies[0]), replies[1..]);
    }
  }

  /** FirstFailure is SUCCESS exactly when every reply is, and otherwise the
      status of a reply all of whose predecessors succeeded. */
  lemma {:induction false} FirstFailureIs(replies: seq<uint32>)
    ensures FirstFailure(replies) == SMB2_STATUS_SUCCESS <==>
      forall i :: 0 <= i < |replies| ==> replies[i] == SMB2_STATUS_SUCCESS
    ensures FirstFailure(replies) != SMB2_STATUS_SUCCESS ==>
      exists i :: 0 <= i < |replies| && replies[i] == FirstFailure(replies) &&
        forall j :: 0 <= j < i ==> replies[j] == SMB2_STATUS_SUCCESS
  {
    if replies != [] && replies[0] == SMB2_STATUS_SUCCESS {
      var rest := replies[1..];
      FirstFailureIs(rest);
      if FirstFailure(rest) != SMB2_STATUS_SUCCESS {
        var i :| 0 <= i < |rest| && rest[i] == FirstFailure(rest) &&
          forall j :: 0 <= j < i ==> rest[j] == SMB2_STATUS_SUCCESS;
        assert replies[i + 1] == rest[i];
        assert forall j :: 0 <= j < i + 1 ==> replies[j] == SMB2_STATUS_SUCCESS by {
          forall j | 0 <= j < i + 1 ensures replies[j] == SMB2_STATUS_SUCCESS {
            if j > 0 {
              assert replies[j] == rest[j - 1];
            }
          }
        }
      } else {
        forall i | 0 <= i < |replies| ensures replies[i] == SMB2_STATUS_SUCCESS {
          if i > 0 {
            assert replies[i] == rest[i - 1];
          }
        }
      }
    } else if replies != [] {
      assert replies[0] == FirstFailure(replies);
    }
  }

  /** For the replies to the three commands of a compound the callbacks
      report the first failure, and the stat callbacks keep the basic
      information exactly when CREATE and QUERY_INFO both succeeded. */
  lemma {:induction false} CompoundReports(create: uint32, query: uint32, close: uint32)
    ensures Merge(Merge(Merge(SMB2_STATUS_SUCCESS, create), query), close) == FirstFailure([create, query, close])
    ensures Merge(Merge(SMB2_STATUS_SUCCESS, create), query) == SMB2_STATUS_SUCCESS <==>
      create == SMB2_STATUS_SUCCESS && query == SMB2_STATUS_SUCCESS
  {
    AggregateIsFirstFailure(SMB2_STATUS_SUCCESS, [create, query, close]);
    var m1 := Merge(SMB2_STATUS_SUCCESS, create);
    var m2 := Merge(m1, query);
    assert [create, query, close][1..] == [query, close];
    assert [query, close][1..] == [close];
    assert [close][1..] == [];
    assert Aggregate(SMB2_STATUS_SUCCESS, [create, query, close]) == Aggregate(m1, [query, close]);
    assert Aggregate(m1, [query, close]) == Aggregate(m2, [close]);
    assert Aggregate(m2, [close]) == Merge(m2, close);
  }

  // ---------------------------------------------------------------------
  // Callback records

  /** struct sync_cb_data, zeroed by calloc: what the waiting caller reads. */
  class SyncData {
    var isFinished: bool
    var status: int
    var ptr: Option<BasicInfo>

    constructor ()
      ensures !isFinished && status == 0 && ptr == None
    {
      isFinished, status, ptr := false, 0, None;
    }

    /** generic_status_cb: records that the request is over, its status and
        its data. */
    method GenericStatusCb(status: int, data: Option<BasicInfo>)
      modifies this
      ensures isFinished && this.status == status && ptr == data
    {
      isFinished := true;
      this.status := status;
      ptr := data;
    }
  }

  /** struct stat_cb_data. Its user callback is generic_status_cb on
      `cbData`, the only one this file installs. */
  class StatData {
    const cbData: SyncData
    var status: uint32
    var fbi: Option<BasicInfo>
    /** Set once stat_cb_3 has freed the record. */
    ghost var freed: bool

    constructor (cbData: SyncData)
      ensures this.cbData == cbData && status == SMB2_STATUS_SUCCESS && fbi == None && !freed
    {
      this.cbData := cbData;
      status, fbi := SMB2_STATUS_SUCCESS, None;
      freed := false;
    }

    /** stat_cb_1, the CREATE reply. */
    method StatCb1(status: uint32)
      requires !freed
      modifies this`status
      ensures this.status == Merge(old(this.status), status)
    {
      if this.status == SMB2_STATUS_SUCCESS {
        this.status := status;
      }
    }

    /** stat_cb_2, the QUERY_INFO reply: its basic information is kept only
        while nothing has failed. */
    method StatCb2(status: uint32, info: BasicInfo)
      requires !freed
      modifies this`status, this`fbi
      ensures this.status == Merge(old(this.status), status)
      ensures fbi == if this.status == SMB2_STATUS_SUCCESS then Some(info) else old(fbi)
    {
      if this.status == SMB2_STATUS_SUCCESS {
        this.status := status;
      }
      if this.status != SMB2_STATUS_SUCCESS {
        return;
      }
      fbi := Some(info);
    }

    /** stat_cb_3, the CLOSE reply: hands the negated errno of the
        aggregated status and the kept information to the user callback,
        then frees the record. nterror_to_errno is not part of this model
        and comes in as `errnoOf`. */
    method StatCb3(status: uint32, errnoOf: uint32 -> int)
      requires !freed
      modifies this`status, this`freed, cbData
      ensures this.status == Merge(old(this.status), status) && freed
      ensures cbData.isFinished && cbData.status == -errnoOf(this.status) && cbData.ptr == old(fbi)
    {
      if this.status == SMB2_STATUS_SUCCESS {
        this.status := status;
      }
      cbData.GenericStatusCb(-errnoOf(this.status), fbi);
      freed := true;
    }

    /** smb2_service delivering the replies of the compound: stat_cb_1,
        stat_cb_2 and stat_cb_3 run in turn on a record that has seen no
        reply yet. */
    method Service(r: Replies, errnoOf: uint32 -> int)
      requires !freed && status == SMB2_STATUS_SUCCESS && fbi == None
      modifies this`status, this`fbi, this`freed, cbData
      ensures freed && cbData.isFinished
      ensures Completion(cbData.status, cbData.ptr) == CompletionOf(true, errnoOf, r)
    {
      StatCb1(r.create);
      StatCb2(r.middle, r.info);
      StatCb3(r.close, errnoOf);
      CompoundReports(r.create, r.middle, r.close);
    }
  }

  /** struct set_cb_data, with generic_status_cb on `cbData` as its user
      callback. */
  class SetData {
    const cbData: SyncData
    var status: uint32
    ghost var freed: bool

    constructor (cbData: SyncData)
      ensures this.cbData == cbData && status == SMB2_STATUS_SUCCESS && !freed
    {
      this.cbData := cbData;
      status := SMB2_STATUS_SUCCESS;
      freed := false;
    }

    /** set_cb_1, the CREATE reply. */
    method SetCb1(status: uint32)
      requires !freed
      modifies this`status
      ensures this.status == Merge(old(this.status), status)
    {
      if this.status == SMB2_STATUS_SUCCESS {
        this.status := status;
      }
    }

    /** set_cb_2, the SET_INFO reply. */
    method SetCb2(status: uint32)
      requires !freed
      modifies this`status
      ensures this.status == Merge(old(this.status), status)
    {
      if this.status == SMB2_STATUS_SUCCESS {
        this.status := status;
      }
    }

    /** set_cb_3, the CLOSE reply: the user callback gets the negated errno
        of the aggregated status and no data, then the record is freed. */
    method SetCb3(status: uint32, errnoOf: uint32 -> int)
      requires !freed
      modifies this`status, this`freed, cbData
      ensures this.status == Merge(old(this.status), status) && freed
      ensures cbData.isFinished && cbData.status == -errnoOf(this.status) && cbData.ptr == None
    {
      if this.status == SMB2_STATUS_SUCCESS {
        this.status := status;
      }
      cbData.GenericStatusCb(-errnoOf(this.status), None);
      freed := true;
    }

    /** smb2_service delivering the replies of the compound: set_cb_1,
        set_cb_2 and set_cb_3 run in turn on a record that has seen no reply
        yet. */
    method Service(r: Replies, errnoOf: uint32 -> int)
      requires !freed && status == SMB2_STATUS_SUCCESS
      modifies this`status, this`freed, cbData
      ensures freed && cbData.isFinished
      ensures Completion(cbData.status, cbData.ptr) == CompletionOf(false, errnoOf, r)
    {
      SetCb1(r.create);
      SetCb2(r.middle);
      SetCb3(r.close, errnoOf);
      CompoundReports(r.create, r.middle, r.close);
    }
  }

  // ---------------------------------------------------------------------
  // Replies and what the callbacks make of them

  /** The replies to the three commands of a compound as smb2_service hands
      them to the callbacks: the status of CREATE, of the middle command
      (QUERY_INFO or SET_INFO) and of CLOSE, and the basic information the
      QUERY_INFO reply carries (unused for the set compound). */
  datatype Replies = Replies(create: uint32, middle: uint32, close: uint32, info: BasicInfo)

  function Statuses(r: Replies): seq<uint32> {
    [r.create, r.middle, r.close]
  }

  predicate AllSucceeded(r: Replies) {
    r.create == SMB2_STATUS_SUCCESS && r.middle == SMB2_STATUS_SUCCESS && r.close == SMB2_STATUS_SUCCESS
  }

  /** What generic_status_cb receives. */
  datatype Completion = Completion(status: int, data: Option<BasicInfo>)

  /** The reference for what the final callback of a compound hands on:
      minus the errno of the first failing reply, and for the stat compound
      the queried information when CREATE and QUERY_INFO succeeded. */
  function CompletionOf(isStat: bool, errnoOf: uint32 -> int, r: Replies): Completion {
    Completion(-errnoOf(FirstFailure(Statuses(r))),
               if isStat && r.create == SMB2_STATUS_SUCCESS && r.middle == SMB2_STATUS_SUCCESS
               then Some(r.info) else None)
  }

  /** nterror_to_errno maps no failing status to 0. */
  predicate OnlySuccessIsZero(errnoOf: uint32 -> int) {
    forall s: uint32 :: errnoOf(s) == 0 ==> s == SMB2_STATUS_SUCCESS
  }

  /** A completion reporting 0 means every reply succeeded, and for the stat
      compound it carries the queried information; with errno 0 for
      SUCCESS the converse holds too. */
  lemma {:induction false} ZeroStatusMeansSuccess(isStat: bool, errnoOf: uint32 -> int, r: Replies)
    requires OnlySuccessIsZero(errnoOf)
    ensures CompletionOf(isStat, errnoOf, r).status == 0 ==>
      AllSucceeded(r) && (isStat ==> CompletionOf(isStat, errnoOf, r).data == Some(r.info))
    ensures AllSucceeded(r) && errnoOf(SMB2_STATUS_SUCCESS) == 0 ==> CompletionOf(isStat, errnoOf, r).status == 0
  {
    FirstFailureIs(Statuses(r));
    var f := FirstFailure(Statuses(r));
    if CompletionOf(isStat, errnoOf, r).status == 0 {
      assert errnoOf(f) == 0;
      assert Statuses(r)[0] == r.create && Statuses(r)[1] == r.middle && Statuses(r)[2] == r.close;
    }
    if AllSucceeded(r) {
      assert forall i :: 0 <= i < 3 ==> Statuses(r)[i] == SMB2_STATUS_SUCCESS;
    }
  }

  // ---------------------------------------------------------------------
  // Waiting for a reply

  /** One turn of the wait loop as the outside world plays it: what poll
      returns and reports, what smb2_service returns, and the replies it
      delivered to the compound's callbacks, if it delivered them. */
  datatype Round = Round(pollRc: int, revents: int, serviceRc: int, replies: Option<Replies>)

  /** The round ends the loop: poll fails, or there were events and
      servicing them failed or delivered the replies. */
  predicate Ends(r: Round) {
    r.pollRc < 0 || (r.revents != 0 && (r.serviceRc < 0 || r.replies.Some?))
  }

  /** The outside world eventually ends the wait. */
  predicate Terminates(script: seq<Round>) {
    exists i :: 0 <= i < |script| && Ends(script[i])
  }

  lemma {:induction false} TerminatesTail(script: seq<Round>)
    requires Terminates(script) && !Ends(script[0])
    ensures Terminates(script[1..])
  {
    var i :| 0 <= i < |script| && Ends(script[i]);
    assert script[1..][i - 1] == script[i];
  }

  /** The return value of wait_for_reply for a request not yet finished,
      and the replies delivered on the way, if any. */
  datatype WaitResult = WaitResult(rc: int, replies: Option<Replies>)

  function Wait(script: seq<Round>): (w: WaitResult)
    requires Terminates(script)
    ensures w.rc == 0 || w.rc == -1
    ensures w.rc == 0 ==> w.replies.Some?
    decreases |script|
  {
    var r := script[0];
    if r.pollRc < 0 then WaitResult(-1, None)
    else if r.revents != 0 && r.serviceRc < 0 then WaitResult(-1, r.replies)
    else if r.revents != 0 && r.replies.Some? then WaitResult(0, r.replies)
    else
      TerminatesTail(script);
      Wait(script[1..])
  }

  /** A round with no events polls again: it changes nothing. */
  lemma {:induction false} WaitRepolls(r: Round, script: seq<Round>)
    requires r.pollRc >= 0 && r.revents == 0 && Terminates(script)
    ensures Terminates([r] + script) && Wait([r] + script) == Wait(script)
  {
    var i :| 0 <= i < |script| && Ends(script[i]);
    assert ([r] + script)[i + 1] == script[i];
    assert ([r] + script)[1..] == script;
  }

  /** The wait succeeds exactly when the first round that ends it delivered
      the replies without a poll or service failure. */
  lemma {:induction false} WaitSucceedsIff(script: seq<Round>, k: nat)
    requires k < |script| && Ends(script[k])
    requires forall j :: 0 <= j < k ==> !Ends(script[j])
    ensures Terminates(script)
    ensures Wait(script).rc == 0 <==>
      script[k].pollRc >= 0 && script[k].serviceRc >= 0 && script[k].replies.Some?
    ensures Wait(script).replies == if script[k].pollRc < 0 then None else script[k].replies
  {
    if k > 0 {
      TerminatesTail(script);
      forall j | 0 <= j < k - 1 ensures !Ends(script[1..][j]) {
        assert script[1..][j] == script[j + 1];
      }
      WaitSucceedsIff(script[1..], k - 1);
    }
  }

  /** wait_for_reply: polls until the request is finished; a failing poll
      or service returns -1, a poll without events polls again. Servicing
      that delivers the replies runs the callbacks of the compound's record,
      `stat` or `set`, whose last one finishes `cb`. */
  method WaitForReply(cb: SyncData, statRec: StatData?, setRec: SetData?, errnoOf: uint32 -> int, script: seq<Round>)
    returns (rc: int)
    requires (statRec == null) != (setRec == null)
    requires statRec != null ==> statRec.cbData == cb && !statRec.freed && statRec.status == SMB2_STATUS_SUCCESS && statRec.fbi == None
    requires setRec != null ==> setRec.cbData == cb && !setRec.freed && setRec.status == SMB2_STATUS_SUCCESS
    requires cb.isFinished || Terminates(script)
    modifies cb, statRec, setRec
    ensures old(cb.isFinished) ==> rc == 0 && cb.status == old(cb.status) && cb.ptr == old(cb.ptr)
    ensures !old(cb.isFinished) ==>
      var w := Wait(script);
      && rc == w.rc
      && (w.replies.None? ==> cb.status == old(cb.status) && cb.ptr == old(cb.ptr))
      && (w.replies.Some? ==>
            cb.isFinished && Completion(cb.status, cb.ptr) == CompletionOf(statRec != null, errnoOf, w.replies.value))
    ensures rc == 0 ==> cb.isFinished
  {
    ghost var finished0 := cb.isFinished;
    var i := 0;
    while !cb.isFinished
      invariant i <= |script|
      invariant !cb.isFinished ==>
        !finished0 && Terminates(script[i..]) && Wait(script) == Wait(script[i..]) &&
        cb.status == old(cb.status) && cb.ptr == old(cb.ptr)
      invariant !cb.isFinished && statRec != null ==>
        !statRec.freed && statRec.status == SMB2_STATUS_SUCCESS && statRec.fbi == None
      invariant !cb.isFinished && setRec != null ==> !setRec.freed && setRec.status == SMB2_STATUS_SUCCESS
      invariant cb.isFinished && !finished0 ==>
        Wait(script).rc == 0 && Wait(script).replies.Some? &&
        Completion(cb.status, cb.ptr) == CompletionOf(statRec != null, errnoOf, Wait(script).replies.value)
      invariant finished0 ==> cb.status == old(cb.status) && cb.ptr == old(cb.ptr)
      decreases |script| - i
    {
      var r := script[i];
      assert script[i..][1..] == script[i + 1..];
      if r.pollRc < 0 {
        return -1;
      }
      i := i + 1;
      if r.revents == 0 {
        TerminatesTail(script[i - 1..]);
        continue;
      }
      if r.replies.Some? {
        if statRec != null {
          statRec.Service(r.replies.value, errnoOf);
        } else {
          setRec.Service(r.replies.value, errnoOf);
        }
      }
      if r.serviceRc < 0 {
        return -1;
      }
      if r.replies.None? {
        TerminatesTail(script[i - 1..]);
      }
    }
    rc := 0;
  }

  // ---------------------------------------------------------------------
  // Sending the compounds

  /** What is handed to the transport. */
  datatype Compound = StatCompound(path: seq<char>) | SetCompound(path: seq<char>, info: BasicInfo)

  /** Whether each allocation of send_compound_stat/set succeeds, in order:
      the callback record, then the CREATE, the middle and the CLOSE PDU. */
  datatype SendOracle = SendOracle(recordOk: bool, createOk: bool, middleOk: bool, closeOk: bool)
  {
    predicate AllOk() {
      recordOk && createOk && middleOk && closeOk
    }
  }

  /** The outcome of one exchange of smb2_utimens: allocate the waiting
      record, send the compound, wait for it. */
  datatype Exchange = NoMemory | SendFailed | WaitFailed | Replied(replies: Replies)

  function ExchangeOf(syncOk: bool, o: SendOracle, script: seq<Round>): Exchange
    requires Terminates(script)
  {
    if !syncOk then NoMemory
    else if !o.AllOk() then SendFailed
    else
      var w := Wait(script);
      if w.rc < 0 then WaitFailed else Replied(w.replies.value)
  }

  /** What smb2_utimens returns, and the compounds it sends, in order. */
  datatype Outcome = Outcome(rc: int, sent: seq<Compound>)

  /** The reference for smb2_utimens. The stat exchange's status decides
      whether a set request goes out; when it is 0 the information the
      stat callbacks passed on is there (ZeroStatusMeansSuccess), and the
      set request carries it with new times. */
  function UtimensOf(path: seq<char>, tv0: Timespec, errnoOf: uint32 -> int,
                     statSync: bool, statSend: SendOracle, statScript: seq<Round>,
                     setSync: bool, setSend: SendOracle, setScript: seq<Round>): Outcome
    requires Terminates(statScript) && Terminates(setScript) && OnlySuccessIsZero(errnoOf)
  {
    match ExchangeOf(statSync, statSend, statScript)
    case NoMemory => Outcome(-ENOMEM, [])
    case SendFailed => Outcome(-1, [])
    case WaitFailed => Outcome(-1, [StatCompound(path)])
    case Replied(reps) =>
      var c := CompletionOf(true, errnoOf, reps);
      if c.status != 0 then Outcome(c.status, [StatCompound(path)])
      else
        ZeroStatusMeansSuccess(true, errnoOf, reps);
        var sent := [StatCompound(path), SetCompound(path, UpdateTimes(c.data.value, tv0))];
        match ExchangeOf(setSync, setSend, setScript)
        case NoMemory => Outcome(-ENOMEM, sent[..1])
        case SendFailed => Outcome(-1, sent[..1])
        case WaitFailed => Outcome(-1, sent)
        case Replied(reps2) => Outcome(CompletionOf(false, errnoOf, reps2).status, sent)
  }

  /** A stat exchange whose replies did not all succeed ends smb2_utimens
      with minus the errno of the first failing reply, which is not 0: no
      set request goes out. */
  lemma {:induction false} StatFailureSendsNoSet(path: seq<char>, tv0: Timespec, errnoOf: uint32 -> int,
      statSync: bool, statSend: SendOracle, statScript: seq<Round>,
      setSync: bool, setSend: SendOracle, setScript: seq<Round>)
    requires Terminates(statScript) && Terminates(setScript) && OnlySuccessIsZero(errnoOf)
    requires !(ExchangeOf(statSync, statSend, statScript).Replied? &&
               AllSucceeded(ExchangeOf(statSync, statSend, statScript).replies))
    ensures var r := UtimensOf(path, tv0, errnoOf, statSync, statSend, statScript, setSync, setSend, setScript);
      var e := ExchangeOf(statSync, statSend, statScript);
      && |r.sent| <= 1 && (r.sent != [] ==> r.sent[0] == StatCompound(path))
      && r.rc != 0
      && (e.Replied? ==> r.rc == -errnoOf(FirstFailure(Statuses(e.replies))))
  {
    var e := ExchangeOf(statSync, statSend, statScript);
    if e.Replied? {
      ZeroStatusMeansSuccess(true, errnoOf, e.replies);
    }
  }

  /** A set request, when one goes out, follows the stat request, which
      had all three replies succeed, and carries the queried information
      with only the write and change times replaced by tv[0]; and
      smb2_utimens returns 0 only when all three set replies succeeded too. */
  lemma {:induction false} SetCarriesQueriedInfo(path: seq<char>, tv0: Timespec, errnoOf: uint32 -> int,
      statSync: bool, statSend: SendOracle, statScript: seq<Round>,
      setSync: bool, setSend: SendOracle, setScript: seq<Round>)
    requires Terminates(statScript) && Terminates(setScript) && OnlySuccessIsZero(errnoOf)
    ensures var r := UtimensOf(path, tv0, errnoOf, statSync, statSend, statScript, setSync, setSend, setScript);
      && |r.sent| <= 2
      && (r.sent != [] ==> r.sent[0] == StatCompound(path))
      && (|r.sent| == 2 ==>
            var e := ExchangeOf(statSync, statSend, statScript);
            e.Replied? && AllSucceeded(e.replies) && r.sent[1] == SetCompound(path, UpdateTimes(e.replies.info, tv0)))
      && (r.rc == 0 ==>
            var e2 := ExchangeOf(setSync, setSend, setScript);
            |r.sent| == 2 && e2.Replied? && AllSucceeded(e2.replies))
  {
    var e := ExchangeOf(statSync, statSend, statScript);
    var e2 := ExchangeOf(setSync, setSend, setScript);
    if e.Replied? {
      ZeroStatusMeansSuccess(true, errnoOf, e.replies);
    }
    if e2.Replied? {
      ZeroStatusMeansSuccess(false, errnoOf, e2.replies);
    }
  }

  /** Conversely, when both exchanges get all their replies with SUCCESS
      and errno 0 stands for SUCCESS, smb2_utimens returns 0 after sending
      both compounds. */
  lemma {:induction false} UtimensSucceeds(path: seq<char>, tv0: Timespec, errnoOf: uint32 -> int,
      statSync: bool, statSend: SendOracle, statScript: seq<Round>,
      setSync: bool, setSend: SendOracle, setScript: seq<Round>)
    requires Terminates(statScript) && Terminates(setScript) && OnlySuccessIsZero(errnoOf)
    requires errnoOf(SMB2_STATUS_SUCCESS) == 0
    requires ExchangeOf(statSync, statSend, statScript).Replied? && AllSucceeded(ExchangeOf(statSync, statSend, statScript).replies)
    requires ExchangeOf(setSync, setSend, setScript).Replied? && AllSucceeded(ExchangeOf(setSync, setSend, setScript).replies)
    ensures var r := UtimensOf(path, tv0, errnoOf, statSync, statSend, statScript, setSync, setSend, setScript);
      r.rc == 0 && |r.sent| == 2
  {
    ZeroStatusMeansSuccess(true, errnoOf, ExchangeOf(statSync, statSend, statScript).replies);
    ZeroStatusMeansSuccess(false, errnoOf, ExchangeOf(setSync, setSend, setScript).replies);
  }

  /** The part of struct smb2_context this file touches: the compounds
      handed to the transport and, as ghost counts, the callback records,
      PDUs and waiting records that are allocated. */
  class Client {
    var queue: seq<Compound>
    ghost var liveRecords: nat
    ghost var livePdus: nat
    ghost var liveSync: nat

    constructor ()
      ensures queue == [] && liveRecords == 0 && livePdus == 0 && liveSync == 0
    {
      queue := [];
      liveRecords, livePdus, liveSync := 0, 0, 0;
    }

    /** send_compound_stat: on success the three chained PDUs and the record
        their callbacks share are queued; on any failure -1 is returned
        after freeing what was allocated. Freeing the CREATE PDU frees the
        PDUs chained to it. */
    method SendCompoundStat(path: seq<char>, cbData: SyncData, o: SendOracle) returns (rc: int, rec: StatData?)
      modifies this`queue, this`liveRecords, this`livePdus
      ensures rc == if o.AllOk() then 0 else -1
      ensures o.AllOk() ==>
        && queue == old(queue) + [StatCompound(path)]
        && liveRecords == old(liveRecords) + 1 && livePdus == old(livePdus) + 3
        && rec != null && fresh(rec) && rec.cbData == cbData
        && rec.status == SMB2_STATUS_SUCCESS && rec.fbi == None && !rec.freed
      ensures !o.AllOk() ==>
        queue == old(queue) && liveRecords == old(liveRecords) && livePdus == old(livePdus)
    {
      if !o.recordOk {
        return -1, null;
      }
      rec := new StatData(cbData);
      liveRecords := liveRecords + 1;
      if !o.createOk {
        liveRecords := liveRecords - 1;
        return -1, null;
      }
      livePdus := livePdus + 1;
      if !o.middleOk {
        liveRecords, livePdus := liveRecords - 1, livePdus - 1;
        return -1, null;
      }
      livePdus := livePdus + 1;
      if !o.closeOk {
        liveRecords, livePdus := liveRecords - 1, livePdus - 2;
        return -1, null;
      }
      livePdus := livePdus + 1;
      queue := queue + [StatCompound(path)];
      rc := 0;
    }

    /** send_compound_set: the same shape, with SET_INFO carrying `info`. */
    method SendCompoundSet(path: seq<char>, info: BasicInfo, cbData: SyncData, o: SendOracle) returns (rc: int, rec: SetData?)
      modifies this`queue, this`liveRecords, this`livePdus
      ensures rc == if o.AllOk() then 0 else -1
      ensures o.AllOk() ==>
        && queue == old(queue) + [SetCompound(path, info)]
        && liveRecords == old(liveRecords) + 1 && livePdus == old(livePdus) + 3
        && rec != null && fresh(rec) && rec.cbData == cbData
        && rec.status == SMB2_STATUS_SUCCESS && !rec.freed
      ensures !o.AllOk() ==>
        queue == old(queue) && liveRecords == old(liveRecords) && livePdus == old(livePdus)
    {
      if !o.recordOk {
        return -1, null;
      }
      rec := new SetData(cbData);
      liveRecords := liveRecords + 1;
      if !o.createOk {
        liveRecords := liveRecords - 1;
        return -1, null;
      }
      livePdus := livePdus + 1;
      if !o.middleOk {
        liveRecords, livePdus := liveRecords - 1, livePdus - 1;
        return -1, null;
      }
      livePdus := livePdus + 1;
      if !o.closeOk {
        liveRecords, livePdus := liveRecords - 1, livePdus - 2;
        return -1, null;
      }
      livePdus := livePdus + 1;
      queue := queue + [SetCompound(path, info)];
      rc := 0;
    }

    /** Sends the stat compound, or the set compound carrying `info`, and
        gives back the record its callbacks will share. */
    method Send(path: seq<char>, info: Option<BasicInfo>, cbData: SyncData, o: SendOracle)
      returns (rc: int, statRec: StatData?, setRec: SetData?)
      modifies this`queue, this`liveRecords, this`livePdus
      ensures rc == if o.AllOk() then 0 else -1
      ensures queue == old(queue) + if !o.AllOk() then [] else
        if info.None? then [StatCompound(path)] else [SetCompound(path, info.value)]
      ensures rc == 0 ==> (statRec == null) != (setRec == null) && (info.None? <==> statRec != null)
      ensures rc == 0 && statRec != null ==>
        fresh(statRec) && statRec.cbData == cbData && !statRec.freed && statRec.status == SMB2_STATUS_SUCCESS && statRec.fbi == None
      ensures rc == 0 && setRec != null ==>
        fresh(setRec) && setRec.cbData == cbData && !setRec.freed && setRec.status == SMB2_STATUS_SUCCESS
    {
      statRec, setRec := null, null;
      if info.None? {
        rc, statRec := SendCompoundStat(path, cbData, o);
      } else {
        rc, setRec := SendCompoundSet(path, info.value, cbData, o);
      }
    }

    /** One exchange of smb2_utimens as written (src/smb2_utimens.c lines
        333-350 and 372-389): when sending fails, -1 is returned and the
        waiting record stays allocated although nothing refers to it. */
    method ExchangeAsWritten(path: seq<char>, info: Option<BasicInfo>, errnoOf: uint32 -> int,
                             syncOk: bool, o: SendOracle, script: seq<Round>)
      returns (rc: int, cb: SyncData?)
      requires Terminates(script)
      modifies this
      ensures var e := ExchangeOf(syncOk, o, script);
        && rc == (if e.NoMemory? then -ENOMEM else if e.Replied? then 0 else -1)
        && (e.SendFailed? ==> queue == old(queue) && liveSync == old(liveSync) + 1)
    {
      if !syncOk {
        return -ENOMEM, null;
      }
      cb := new SyncData();
      liveSync := liveSync + 1;
      var statRec, setRec;
      rc, statRec, setRec := Send(path, info, cb, o);
      if rc != 0 {
        return -1, cb;
      }
      rc := WaitForReply(cb, statRec, setRec, errnoOf, script);
      if rc < 0 {
        cb.status := CANCELLED_AS_INT;
        return -1, cb;
      }
    }

    /** One exchange with the record freed when sending fails. After a
        failed wait the record is kept with status CANCELLED, since a late
        reply may still write to it; after a reply the caller frees it. */
    method Exchange(path: seq<char>, info: Option<BasicInfo>, errnoOf: uint32 -> int,
                    syncOk: bool, o: SendOracle, script: seq<Round>)
      returns (rc: int, cb: SyncData?)
      requires Terminates(script)
      modifies this
      ensures var e := ExchangeOf(syncOk, o, script);
        && rc == (if e.NoMemory? then -ENOMEM else if e.Replied? then 0 else -1)
        && queue == old(queue) + (if e.NoMemory? || e.SendFailed? then [] else
             if info.None? then [StatCompound(path)] else [SetCompound(path, info.value)])
        && liveSync == old(liveSync) + (if e.NoMemory? || e.SendFailed? then 0 else 1)
        && (e.WaitFailed? ==> cb != null && cb.status == CANCELLED_AS_INT)
        && (e.Replied? ==>
              cb != null && cb.isFinished && Completion(cb.status, cb.ptr) == CompletionOf(info.None?, errnoOf, e.replies))
    {
      if !syncOk {
        return -ENOMEM, null;
      }
      cb := new SyncData();
      liveSync := liveSync + 1;
      var statRec, setRec;
      rc, statRec, setRec := Send(path, info, cb, o);
      if rc != 0 {
        liveSync := liveSync - 1;
        return -1, null;
      }
      rc := WaitForReply(cb, statRec, setRec, errnoOf, script);
      if rc < 0 {
        cb.status := CANCELLED_AS_INT;
        return -1, cb;
      }
    }

    /** smb2_utimens: queries the basic information, replaces the last
        write and change times by tv[0] and sets it again. A failed query
        returns its status without a set request. nterror_to_errno comes in
        as `errnoOf`. */
    method SmbUtimens(path: seq<char>, tv0: Timespec, errnoOf: uint32 -> int,
                      statSync: bool, statSend: SendOracle, statScript: seq<Round>,
                      setSync: bool, setSend: SendOracle, setScript: seq<Round>) returns (rc: int)
      requires Terminates(statScript) && Terminates(setScript) && OnlySuccessIsZero(errnoOf)
      modifies this
      ensures var r := UtimensOf(path, tv0, errnoOf, statSync, statSend, statScript, setSync, setSend, setScript);
        rc == r.rc && queue == old(queue) + r.sent
    {
      var cb;
      rc, cb := Exchange(path, None, errnoOf, statSync, statSend, statScript);
      if rc != 0 {
        return;
      }
      var status := cb.status;
      if status != 0 {
        liveSync := liveSync - 1;
        return status;
      }
      ZeroStatusMeansSuccess(true, errnoOf, ExchangeOf(statSync, statSend, statScript).replies);
      var fbi := UpdateTimes(cb.ptr.value, tv0);
      liveSync := liveSync - 1;
      rc, cb := Exchange(path, Some(fbi), errnoOf, setSync, setSend, setScript);
      if rc != 0 {
        return;
      }
      rc := cb.status;
      liveSync := liveSync - 1;
    }
  }
}
