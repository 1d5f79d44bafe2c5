/** The upgrade record, kept in the boot loader's slot of a two-slot flash page. */
module OtaFlags {
  import opened OtaBytes

  const UNIT: nat := 256
  const PAGE: nat := 512
  const RECORD: nat := 28

  const UPGRADE_NONE: nat := 2
  const OTA_IDLE: nat := 0
  const OTA_NEED_UPGRADE: nat := 1
  const OTA_SUCCEED: nat := 2
  const OTA_FAILED: nat := 3

  type Field = f: nat | f < 0x1_0000_0000

  datatype Flag = Flag(upgradeType: Field, state: Field, imageSize: Field, oldImageSize: Field,
                       recoverVerify: Field, verifyLength: Field, crc: Field)

  /** The record's memory: seven 32-bit fields.  The byte order plays no part. */
  function Covered(f: Flag): (r: Bytes)
    ensures |r| == RECORD - 4
  {
    DWord(f.upgradeType) + DWord(f.state) + DWord(f.imageSize) + DWord(f.oldImageSize)
    + DWord(f.recoverVerify) + DWord(f.verifyLength)
  }

  function Encode(f: Flag): (r: Bytes)
    ensures |r| == RECORD
  {
    Covered(f) + DWord(f.crc)
  }

  function Decode(b: Bytes): Flag
    requires |b| == RECORD
  {
    Flag(GetDWord(b, 0), GetDWord(b, 4), GetDWord(b, 8), GetDWord(b, 12), GetDWord(b, 16),
         GetDWord(b, 20), GetDWord(b, 24))
  }

  lemma SevenFields(a: Bytes, b: Bytes, c: Bytes, d: Bytes, e: Bytes, f: Bytes, g: Bytes)
    requires |a| == |b| == |c| == |d| == |e| == |f| == |g| == 4
    ensures var r := a + b + c + d + e + f + g;
            && r[0..4] == a && r[4..8] == b && r[8..12] == c && r[12..16] == d && r[16..20] == e
            && r[20..24] == f && r[24..28] == g
  {
  }

  lemma FlagRoundTrip(f: Flag)
    ensures Decode(Encode(f)) == f
  {
    hide DWord, GetDWord;
    var b := Encode(f);
    SevenFields(DWord(f.upgradeType), DWord(f.state), DWord(f.imageSize), DWord(f.oldImageSize),
                DWord(f.recoverVerify), DWord(f.verifyLength), DWord(f.crc));
    DWordRoundTrip(f.upgradeType, b, 0);
    DWordRoundTrip(f.state, b, 4);
    DWordRoundTrip(f.imageSize, b, 8);
    DWordRoundTrip(f.oldImageSize, b, 12);
    DWordRoundTrip(f.recoverVerify, b, 16);
    DWordRoundTrip(f.verifyLength, b, 20);
    DWordRoundTrip(f.crc, b, 24);
  }

  /** Where the fields lie in the record: in the order of their declaration, four bytes each. */
  lemma FieldsLie(f: Flag)
    ensures var b := Encode(f);
            && GetDWord(b, 0) == f.upgradeType && GetDWord(b, 4) == f.state && GetDWord(b, 8) == f.imageSize
            && GetDWord(b, 12) == f.oldImageSize && GetDWord(b, 16) == f.recoverVerify
            && GetDWord(b, 20) == f.verifyLength && GetDWord(b, 24) == f.crc && b[..24] == Covered(f)
  {
    hide GetDWord, Encode;
    FlagRoundTrip(f);
    assert Encode(f)[..24] == Covered(f) by { CoveredFirst(f); }
  }

  lemma CoveredFirst(f: Flag)
    ensures Encode(f)[..24] == Covered(f)
  {
    hide Covered;
  }

  // ---- the setters as functions ----

  datatype Op =
    | SetInfo(upgradeType: Field, imageSize: Field)
    | SetResult(state: Field, imageSize: Field)
    | GetResult
    | SetRecoverVerify(verify: Field, length: Field)
    | SetUpdateFail

  function Apply(f: Flag, op: Op): Flag {
    match op
    case SetInfo(t, n) => f.(upgradeType := t, imageSize := n, state := OTA_NEED_UPGRADE)
    case SetResult(s, n) => f.(state := s, imageSize := n)
    case GetResult =>
      f.(oldImageSize := if f.state == OTA_SUCCEED then f.imageSize else f.oldImageSize,
         state := OTA_IDLE, upgradeType := UPGRADE_NONE)
    case SetRecoverVerify(v, n) => f.(recoverVerify := v, verifyLength := n)
    case SetUpdateFail => f.(state := OTA_FAILED)
  }

  type Crc = Bytes -> Field

  function Sealed(f: Flag, crc: Crc): Flag {
    f.(crc := crc(Covered(f)))
  }

  /** What a reset by flag_upgrade_init leaves: the verify length stays as it was read. */
  function Reset(f: Flag): Flag {
    f.(state := OTA_IDLE, upgradeType := UPGRADE_NONE, recoverVerify := 0, imageSize := 0, oldImageSize := 0)
  }

  /** What initialisation makes of a page. */
  function Restore(page: Bytes, crc: Crc): Flag
    requires |page| == PAGE
  {
    var f := Decode(page[..RECORD]);
    if crc(Covered(f)) == f.crc then f else Sealed(Reset(f), crc)
  }

  /** Record and page after an operation that saves. */
  datatype Store = Store(flag: Flag, page: Bytes)

  function Save(s: Store, f: Flag, crc: Crc): (r: Store)
    requires |s.page| == PAGE
    ensures |r.page| == PAGE
  {
    var g := Sealed(f, crc);
    Store(g, Overlay(s.page, 0, Encode(g)))
  }

  function Run(s: Store, ops: seq<Op>, crc: Crc): (r: Store)
    requires |s.page| == PAGE
    ensures |r.page| == PAGE
    decreases |ops|
  {
    if ops == [] then s else Run(Save(s, Apply(s.flag, ops[0]), crc), ops[1..], crc)
  }

  lemma SavedIsRestored(s: Store, f: Flag, crc: Crc)
    requires |s.page| == PAGE
    ensures var r := Save(s, f, crc);
            && Restore(r.page, crc) == r.flag
            && r.page[UNIT..] == s.page[UNIT..]
  {
    hide Covered, Decode, DWord;
    var g := Sealed(f, crc);
    var page := Overlay(s.page, 0, Encode(g));
    assert page[..RECORD] == page[0..0 + |Encode(g)|];
    FlagRoundTrip(g);
    assert Covered(g) == Covered(f) by { CoveredIgnoresCrc(f, g.crc); }
  }

  lemma SavedSealed(s: Store, f: Flag, crc: Crc)
    requires |s.page| == PAGE
    ensures Save(s, f, crc).flag == Sealed(f, crc)
  {
  }

  lemma CoveredIgnoresCrc(f: Flag, c: Field)
    ensures Covered(f.(crc := c)) == Covered(f)
  {
  }

  /** After any operations a reboot restores exactly the record in memory, and the
      application's slot is as it was. */
  lemma {:induction false} RunSurvivesReboot(s: Store, ops: seq<Op>, crc: Crc)
    requires |s.page| == PAGE && Restore(s.page, crc) == s.flag
    ensures var r := Run(s, ops, crc);
            Restore(r.page, crc) == r.flag && r.page[UNIT..] == s.page[UNIT..]
    decreases |ops|
  {
    hide Restore, Save, Apply;
    if ops != [] {
      SavedIsRestored(s, Apply(s.flag, ops[0]), crc);
      RunSurvivesReboot(Save(s, Apply(s.flag, ops[0]), crc), ops[1..], crc);
    }
  }

  /** Whether a run at some point reads the result of a successful upgrade. */
  predicate ReadsSuccess(f: Flag, ops: seq<Op>)
    decreases |ops|
  {
    ops != [] && ((ops[0].GetResult? && f.state == OTA_SUCCEED) || ReadsSuccess(Apply(f, ops[0]), ops[1..]))
  }

  /** The size of the old image changes only when a success is read. */
  lemma {:induction false} OldSizeKept(s: Store, ops: seq<Op>, crc: Crc)
    requires |s.page| == PAGE && !ReadsSuccess(s.flag, ops)
    ensures Run(s, ops, crc).flag.oldImageSize == s.flag.oldImageSize
    decreases |ops|
  {
    hide Covered, Encode;
    if ops != [] {
      var t := Save(s, Apply(s.flag, ops[0]), crc);
      CrcPlaysNoPart(Apply(s.flag, ops[0]), t.flag, ops[1..]);
      OldSizeKept(t, ops[1..], crc);
    }
  }

  lemma {:induction false} CrcPlaysNoPart(f: Flag, g: Flag, ops: seq<Op>)
    requires g == f.(crc := g.crc)
    ensures ReadsSuccess(f, ops) == ReadsSuccess(g, ops)
    decreases |ops|
  {
    if ops != [] {
      CrcPlaysNoPart(Apply(f, ops[0]), Apply(g, ops[0]), ops[1..]);
    }
  }

  // ---- what the fields show after a reboot ----

  lemma {:induction false} RunJoins(s: Store, a: seq<Op>, b: seq<Op>, crc: Crc)
    requires |s.page| == PAGE
    ensures Run(s, a + b, crc) == Run(Run(s, a, crc), b, crc)
    decreases |a|
  {
    hide Save, Apply;
    if a == [] {
      assert a + b == b;
    } else {
      assert (a + b)[1..] == a[1..] + b;
      RunJoins(Save(s, Apply(s.flag, a[0]), crc), a[1..], b, crc);
    }
  }

  /** The record after one operation, but for its checksum. */
  lemma OneOp(s: Store, op: Op, crc: Crc)
    requires |s.page| == PAGE
    ensures var f, g := s.flag, Run(s, [op], crc).flag;
            match op
            case SetInfo(t, n) => g == f.(upgradeType := t, imageSize := n, state := OTA_NEED_UPGRADE, crc := g.crc)
            case SetResult(state, n) => g == f.(state := state, imageSize := n, crc := g.crc)
            case GetResult =>
              && g.upgradeType == UPGRADE_NONE && g.state == OTA_IDLE && g.imageSize == f.imageSize
              && g.recoverVerify == f.recoverVerify && g.verifyLength == f.verifyLength
              && (f.state == OTA_SUCCEED ==> g.oldImageSize == f.imageSize)
              && (f.state != OTA_SUCCEED ==> g.oldImageSize == f.oldImageSize)
            case SetRecoverVerify(v, n) => g == f.(recoverVerify := v, verifyLength := n, crc := g.crc)
            case SetUpdateFail => g == f.(state := OTA_FAILED, crc := g.crc)
  {
    hide Encode, Covered;
    assert [op][1..] == [];
  }

  /** Operations that set nothing but the fields for recovery keep the others. */
  lemma {:induction false} OnlyVerifies(s: Store, ops: seq<Op>, crc: Crc)
    requires |s.page| == PAGE && forall op | op in ops :: op.SetRecoverVerify?
    ensures var f, g := s.flag, Run(s, ops, crc).flag;
            && g.upgradeType == f.upgradeType && g.state == f.state
            && g.imageSize == f.imageSize && g.oldImageSize == f.oldImageSize
    decreases |ops|
  {
    hide Encode, Covered;
    if ops != [] {
      assert ops[0] in ops && forall op | op in ops[1..] :: op in ops;
      OnlyVerifies(Save(s, Apply(s.flag, ops[0]), crc), ops[1..], crc);
    }
  }

  lemma {:induction false} NoVerifies(s: Store, ops: seq<Op>, crc: Crc)
    requires |s.page| == PAGE && forall op | op in ops :: !op.SetRecoverVerify?
    ensures var f, g := s.flag, Run(s, ops, crc).flag;
            g.recoverVerify == f.recoverVerify && g.verifyLength == f.verifyLength
    decreases |ops|
  {
    hide Encode, Covered;
    if ops != [] {
      assert ops[0] in ops && forall op | op in ops[1..] :: op in ops;
      NoVerifies(Save(s, Apply(s.flag, ops[0]), crc), ops[1..], crc);
    }
  }

  /** The records in front of, at and behind the last operation of a kind, and what a reboot
      restores at the end. */
  lemma LastOp(s: Store, before: seq<Op>, op: Op, after: seq<Op>, crc: Crc) returns (b: Store, m: Store, r: Store)
    requires |s.page| == PAGE && Restore(s.page, crc) == s.flag
    ensures b == Run(s, before, crc) && m == Run(b, [op], crc) && r == Run(m, after, crc)
    ensures r == Run(s, before + [op] + after, crc) && Restore(r.page, crc) == r.flag
  {
    hide Run, Restore;
    RunJoins(s, before + [op], after, crc);
    RunJoins(s, before, [op], crc);
    RunSurvivesReboot(s, before + [op] + after, crc);
    b := Run(s, before, crc);
    m := Run(b, [op], crc);
    r := Run(m, after, crc);
  }

  /** The last upgrade asked for is what the boot loader finds: type, size, and that there is
      one to do. */
  lemma InfoShows(s: Store, before: seq<Op>, t: Field, n: Field, after: seq<Op>, crc: Crc)
    requires |s.page| == PAGE && Restore(s.page, crc) == s.flag && forall op | op in after :: op.SetRecoverVerify?
    ensures var f := Restore(Run(s, before + [SetInfo(t, n)] + after, crc).page, crc);
            f.upgradeType == t && f.imageSize == n && f.state == OTA_NEED_UPGRADE
  {
    var b, m, r := LastOp(s, before, SetInfo(t, n), after, crc);
    hide Run, Restore;
    OneOp(b, SetInfo(t, n), crc);
    OnlyVerifies(m, after, crc);
  }

  /** A failure stays a failure until its result is read, and reading it moves no size. */
  lemma FailureShows(s: Store, before: seq<Op>, after: seq<Op>, crc: Crc)
    requires |s.page| == PAGE && Restore(s.page, crc) == s.flag && forall op | op in after :: op.SetRecoverVerify?
    ensures var ops := before + [SetUpdateFail] + after;
            && Restore(Run(s, ops, crc).page, crc).state == OTA_FAILED
            && Run(s, ops + [GetResult], crc).flag.oldImageSize == Run(s, before, crc).flag.oldImageSize
  {
    var b, m, r := LastOp(s, before, SetUpdateFail, after, crc);
    hide Run, Restore;
    OneOp(b, SetUpdateFail, crc);
    OnlyVerifies(m, after, crc);
    RunJoins(s, before + [SetUpdateFail] + after, [GetResult], crc);
    OneOp(r, GetResult, crc);
  }

  /** Reading a success makes the size of the image the old one, once and for all. */
  lemma SuccessMovesSize(s: Store, before: seq<Op>, n: Field, after: seq<Op>, crc: Crc)
    requires |s.page| == PAGE && Restore(s.page, crc) == s.flag && forall op | op in after :: op.SetRecoverVerify?
    ensures var ops := before + [SetResult(OTA_SUCCEED, n)] + after;
            var f := Restore(Run(s, ops + [GetResult], crc).page, crc);
            && f.oldImageSize == n && f.imageSize == n && f.state == OTA_IDLE && f.upgradeType == UPGRADE_NONE
            && Run(s, ops + [GetResult] + [GetResult], crc).flag.oldImageSize == n
  {
    var ops := before + [SetResult(OTA_SUCCEED, n)] + after;
    var b, m, r := LastOp(s, before, SetResult(OTA_SUCCEED, n), after, crc);
    hide Run, Restore;
    OneOp(b, SetResult(OTA_SUCCEED, n), crc);
    OnlyVerifies(m, after, crc);
    RunJoins(s, ops, [GetResult], crc);
    RunJoins(s, ops + [GetResult], [GetResult], crc);
    OneOp(r, GetResult, crc);
    OneOp(Run(r, [GetResult], crc), GetResult, crc);
    RunSurvivesReboot(s, ops + [GetResult], crc);
  }

  /** The last value to recover by is what a reboot finds. */
  lemma VerifyShows(s: Store, before: seq<Op>, v: Field, n: Field, after: seq<Op>, crc: Crc)
    requires |s.page| == PAGE && Restore(s.page, crc) == s.flag && forall op | op in after :: !op.SetRecoverVerify?
    ensures var f := Restore(Run(s, before + [SetRecoverVerify(v, n)] + after, crc).page, crc);
            f.recoverVerify == v && f.verifyLength == n
  {
    var b, m, r := LastOp(s, before, SetRecoverVerify(v, n), after, crc);
    hide Run, Restore;
    OneOp(b, SetRecoverVerify(v, n), crc);
    NoVerifies(m, after, crc);
  }

  /** A record whose checksum is wrong is not believed: all fields but one are cleared, and
      the checksum of what is left is right. */
  lemma BadRecordIsCleared(page: Bytes, crc: Crc)
    requires |page| == PAGE
    ensures var f, g := Decode(page[..RECORD]), Restore(page, crc);
            && crc(Covered(g)) == g.crc
            && (crc(Covered(f)) == f.crc ==> g == f)
            && (crc(Covered(f)) != f.crc ==>
                  && g.state == OTA_IDLE && g.upgradeType == UPGRADE_NONE && g.recoverVerify == 0
                  && g.imageSize == 0 && g.oldImageSize == 0 && g.verifyLength == f.verifyLength)
  {
    hide Decode, Covered;
    var f := Decode(page[..RECORD]);
    CoveredIgnoresCrc(Reset(f), crc(Covered(Reset(f))));
  }

  /** The checksum is taken over all other fields: records that it cannot tell apart differ in
      nothing else. */
  lemma CoveredTellsApart(f: Flag, g: Flag)
    requires Covered(f) == Covered(g)
    ensures g == f.(crc := g.crc)
  {
    hide DWord, GetDWord;
    var c := f.crc;
    assert Encode(f.(crc := c)) == Encode(g.(crc := c)) by {
      CoveredIgnoresCrc(g, c);
    }
    FlagRoundTrip(f);
    FlagRoundTrip(g.(crc := c));
  }

  // ---- the objects ----

  datatype Slot = BootLoader | Application

  /** Where a slot begins in the page. */
  function Begin(slot: Slot): nat {
    if slot == BootLoader then 0 else UNIT
  }

  /** The page behind the read and write callbacks. */
  class FlagManager {
    var page: Bytes
    /** Whether the callbacks work. */
    const working: bool

    ghost predicate Valid()
      reads this
    {
      |page| == PAGE
    }

    constructor (page: Bytes, working: bool)
      requires |page| == PAGE
      ensures Valid() && this.page == page && this.working == working
    {
      this.page := page;
      this.working := working;
    }

    /** func_flag_read, for a buffer of the whole page. */
    method ReadPage(buf: array<Byte>) returns (ok: bool)
      requires Valid() && buf.Length == PAGE
      modifies buf
      ensures ok <==> working
      ensures ok ==> buf[..] == page
    {
      if working {
        forall i | 0 <= i < PAGE {
          buf[i] := page[i];
        }
      }
      return working;
    }

    /** func_flag_write. */
    method WritePage(buf: array<Byte>) returns (ok: bool)
      requires buf.Length == PAGE
      modifies this
      ensures ok <==> working
      ensures page == if ok then buf[..] else old(page)
    {
      if working {
        page := buf[..];
      }
      return working;
    }

    /** The head of a slot, copied out of a buffer of the whole page. */
    method Read(slot: Slot, len: nat) returns (ok: bool, data: Bytes)
      requires Valid()
      ensures ok <==> working && len <= UNIT
      ensures ok ==> |data| == len && data <= page[Begin(slot)..]
    {
      if len > UNIT {
        return false, [];
      }
      var buf := new Byte[PAGE];
      ok := ReadPage(buf);
      if !ok {
        return false, [];
      }
      match slot
      case BootLoader => data := buf[..len];
      case Application => data := buf[UNIT..UNIT + len];
    }

    /** Copies data into a slot's place in the buffer; memcpy. */
    method CopyIn(buf: array<Byte>, slot: Slot, data: Bytes)
      requires buf.Length == PAGE && |data| <= UNIT
      modifies buf
      ensures buf[..] == Overlay(old(buf[..]), Begin(slot), data)
    {
      ghost var before := buf[..];
      var at := Begin(slot);
      var i := 0;
      assert Overlay(before, at, data[..0]) == before;
      while i < |data|
        invariant 0 <= i <= |data| && buf[..] == Overlay(before, at, data[..i])
      {
        assert data[..i + 1] == data[..i] + [data[i]];
        buf[at + i] := data[i];
        i := i + 1;
      }
      assert data[..i] == data;
    }

    /** Reads the page, replaces the head of one slot, writes the page back: the rest of the
        slot and the whole other one stay. */
    method Write(slot: Slot, data: Bytes) returns (ok: bool)
      requires Valid()
      modifies this
      ensures Valid() && (ok <==> working && |data| <= UNIT)
      ensures !ok ==> page == old(page)
      ensures ok ==> page == Overlay(old(page), Begin(slot), data)
      ensures slot == BootLoader ==> page[UNIT..] == old(page)[UNIT..]
      ensures slot == Application ==> page[..UNIT] == old(page)[..UNIT]
    {
      if |data| > UNIT {
        return false;
      }
      var buf := new Byte[PAGE];
      ok := ReadPage(buf);
      if !ok {
        return false;
      }
      CopyIn(buf, slot, data);
      ok := WritePage(buf);
    }
  }

  class UpgradeFlag {
    const manager: FlagManager
    const crc: Crc
    var flag: Flag

    ghost predicate Valid()
      reads this, manager
    {
      manager.Valid() && manager.working
    }

    ghost function State(): (s: Store)
      reads this, manager
      requires Valid()
      ensures |s.page| == PAGE
    {
      Store(flag, manager.page)
    }

    /** flag_upgrade_init on whatever the page holds. */
    constructor (manager: FlagManager, crc: Crc)
      requires manager.Valid() && manager.working
      modifies manager
      ensures Valid() && this.manager == manager && this.crc == crc
      ensures flag == Restore(old(manager.page), crc) && Restore(manager.page, crc) == flag
      ensures manager.page[UNIT..] == old(manager.page)[UNIT..]
    {
      this.manager := manager;
      this.crc := crc;
      new;
      var ok, data := manager.Read(BootLoader, RECORD);
      assert data == manager.page[..RECORD];
      flag := Decode(data);
      hide Covered, Decode, Encode, Save;
      if crc(Covered(flag)) != flag.crc {
        flag := Reset(flag);
        SavedIsRestored(State(), flag, crc);
        SavedSealed(State(), flag, crc);
        ok := SaveFlag();
      }
    }

    method SaveFlag() returns (ok: bool)
      requires Valid()
      modifies this`flag, manager
      ensures ok && Valid() && State() == Save(old(State()), old(flag), crc)
      ensures flag == old(flag).(crc := flag.crc) && Restore(manager.page, crc) == flag
    {
      hide Covered, DWord;
      CoveredIgnoresCrc(flag, crc(Covered(flag)));
      flag := flag.(crc := crc(Covered(flag)));
      SavedIsRestored(State(), flag, crc);
      ok := manager.Write(BootLoader, Encode(flag));
    }

    method SetInfo(upgradeType: Field, imageSize: Field) returns (ok: bool)
      requires Valid()
      modifies this`flag, manager
      ensures ok && Valid() && State() == Save(old(State()), Apply(old(flag), Op.SetInfo(upgradeType, imageSize)), crc)
      ensures flag == old(flag).(upgradeType := upgradeType, imageSize := imageSize, state := OTA_NEED_UPGRADE,
                                 crc := flag.crc)
      ensures Restore(manager.page, crc) == flag
    {
      flag := flag.(upgradeType := upgradeType);
      flag := flag.(imageSize := imageSize);
      flag := flag.(state := OTA_NEED_UPGRADE);
      ok := SaveFlag();
    }

    method SetResult(state: Field, imageSize: Field) returns (ok: bool)
      requires Valid()
      modifies this`flag, manager
      ensures ok && Valid() && State() == Save(old(State()), Apply(old(flag), Op.SetResult(state, imageSize)), crc)
      ensures flag == old(flag).(state := state, imageSize := imageSize, crc := flag.crc)
      ensures Restore(manager.page, crc) == flag
    {
      flag := flag.(state := state);
      flag := flag.(imageSize := imageSize);
      ok := SaveFlag();
    }

    method GetResult() returns (ok: bool, state: Field)
      requires Valid()
      modifies this`flag, manager
      ensures ok && Valid() && state == old(flag).state
      ensures State() == Save(old(State()), Apply(old(flag), Op.GetResult), crc)
      ensures flag.state == OTA_IDLE && flag.upgradeType == UPGRADE_NONE
      ensures flag.imageSize == old(flag).imageSize
      ensures flag.recoverVerify == old(flag).recoverVerify && flag.verifyLength == old(flag).verifyLength
      ensures flag.oldImageSize == if state == OTA_SUCCEED then old(flag).imageSize else old(flag).oldImageSize
      ensures Restore(manager.page, crc) == flag
    {
      state := flag.state;
      if flag.state == OTA_SUCCEED {
        flag := flag.(oldImageSize := flag.imageSize);
      }
      flag := flag.(state := OTA_IDLE);
      flag := flag.(upgradeType := UPGRADE_NONE);
      ok := SaveFlag();
    }

    method SetRecoverVerify(verify: Field, length: Field) returns (ok: bool)
      requires Valid()
      modifies this`flag, manager
      ensures ok && Valid() && State() == Save(old(State()), Apply(old(flag), Op.SetRecoverVerify(verify, length)), crc)
      ensures flag == old(flag).(recoverVerify := verify, verifyLength := length, crc := flag.crc)
      ensures Restore(manager.page, crc) == flag
    {
      flag := flag.(recoverVerify := verify);
      flag := flag.(verifyLength := length);
      ok := SaveFlag();
    }

    method SetUpdateFail() returns (ok: bool)
      requires Valid()
      modifies this`flag, manager
      ensures ok && Valid() && State() == Save(old(State()), Apply(old(flag), Op.SetUpdateFail), crc)
      ensures flag == old(flag).(state := OTA_FAILED, crc := flag.crc)
      ensures Restore(manager.page, crc) == flag
    {
      flag := flag.(state := OTA_FAILED);
      ok := SaveFlag();
    }
  }
}
