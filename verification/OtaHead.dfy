/** The head object: a buffer filled piece by piece, walked and blanked in place. */
module OtaHead {
  import opened Basics
  import opened OtaBytes
  import S = OtaHeadSpec

  class PackHead {
    /** The attribute of the checksum algorithm the device is built with. */
    const attr: nat
    var buff: array?<Byte>
    var storedLen: nat
    var headLen: nat
    var checksumPos: Option<Bytes>
    var digest: Option<S.Digest>
    var flashType: nat

    ghost predicate Valid()
      reads this
    {
      && (buff == null ==> headLen == 0 && storedLen == 0)
      && (buff != null ==> buff.Length == headLen && S.MIN_LEN <= headLen && storedLen <= headLen)
    }

    ghost function State(): S.Head
      reads this, buff
      requires Valid()
    {
      S.Head(if buff == null then [] else buff[..storedLen], headLen, checksumPos, digest, flashType)
    }

    constructor (attr: nat)
      ensures Valid() && State() == S.EMPTY && this.attr == attr && buff == null
    {
      this.attr := attr;
      buff := null;
      storedLen := 0;
      headLen := 0;
      checksumPos := None;
      digest := None;
      flashType := 0;
    }

    /** memcpy into the head buffer, which then holds at + |data| bytes. */
    method Store(at: nat, data: Bytes)
      requires Valid() && buff != null && at <= storedLen && at + |data| <= headLen
      modifies this`storedLen, buff
      ensures Valid() && State() == old(State()).(received := old(State()).received[..at] + data)
    {
      forall i | 0 <= i < |data| {
        buff[at + i] := data[i];
      }
      storedLen := at + |data|;
      assert buff[..at] == old(buff[..storedLen])[..at];
      assert buff[..storedLen] == buff[..at] + buff[at..storedLen] && buff[at..storedLen] == data;
    }

    /** Moves what is stored into a buffer of the head's full length. */
    method Grow(newLen: nat)
      requires Valid() && buff != null && headLen < newLen
      modifies this`buff, this`headLen
      ensures Valid() && fresh(buff) && State() == old(State()).(headLen := newLen)
    {
      var newBuff := new Byte[newLen];
      forall i | 0 <= i < storedLen {
        newBuff[i] := buff[i];
      }
      buff := newBuff;
      headLen := newLen;
    }

    /** Makes the buffer for the fixed fields. */
    method Start()
      requires Valid()
      modifies this`buff, this`headLen
      ensures Valid() && buff != null && (buff == old(buff) || (old(buff) == null && fresh(buff)))
      ensures State() == old(State()).(headLen := if old(headLen) == 0 then S.MIN_LEN else old(headLen))
    {
      if buff == null {
        buff := new Byte[S.MIN_LEN];
        headLen := S.MIN_LEN;
        assert buff[..0] == [];
      }
    }

    method GetField(at: nat) returns (v: nat)
      requires Valid() && at + 4 <= storedLen
      ensures v == GetDWord(State().received, at)
    {
      v := GetDWord(buff[..storedLen], at);
    }

    /** Checks the fixed fields and grows the buffer to the head's length. */
    method Accept() returns (ok: bool)
      requires Valid() && storedLen == S.MIN_LEN
      modifies this`storedLen, this`buff, this`headLen
      ensures Valid() && (buff == old(buff) || fresh(buff))
      ensures ok == S.GoodFields(old(State()).received)
      ensures State() ==
              if !ok then old(State()).(received := [])
              else old(State()).(headLen := if GetDWord(old(State()).received, 4) > old(headLen)
                                            then GetDWord(old(State()).received, 4) else old(headLen))
    {
      hide GetDWord;
      var version := GetField(0);
      var len := GetField(4);
      var total := GetField(8);
      if version != 0 || len < S.MIN_LEN || len >= total || len > S.MAX_LEN {
        storedLen := 0;
        return false;
      }
      if len > headLen {
        Grow(len);
      }
      return true;
    }

    method ParseHeadLen(at: nat, chunk: Bytes) returns (ok: bool, used: nat)
      requires Valid()
      modifies this`storedLen, this`buff, this`headLen, buff
      ensures Valid() && (buff == old(buff) || fresh(buff))
      ensures S.ParseHeadLen(old(State()), at, chunk) == S.Step(State(), ok, used)
    {
      hide S.GoodFields, GetDWord;
      used := 0;
      if at < S.MIN_LEN {
        if at > storedLen {
          return false, 0;
        }
        Start();
        used := Min(S.MIN_LEN - at, |chunk|);
        Store(at, chunk[..used]);
        if storedLen < S.MIN_LEN {
          return true, used;
        }
        ok := Accept();
        return ok, used;
      }
      return true, 0;
    }

    /** The value of one TLV, at cur. */
    method HandleTlv(attribute: nat, cur: nat, len: nat) returns (ok: bool)
      requires Valid() && buff != null && cur + len <= headLen
      modifies this`checksumPos, this`flashType, buff
      ensures Valid()
      ensures ok <==> attribute == attr || attribute != S.BIN_TYPE ||
                      (cur + 4 <= headLen && GetDWord(old(buff[..]), cur) < S.UPDATE_INFO)
      ensures buff[..] == if attribute == attr then Overlay(old(buff[..]), cur, Zeros(len)) else old(buff[..])
      ensures checksumPos == if attribute != attr then old(checksumPos)
                             else if len > 0 then Some(old(buff[..])[cur..cur + len]) else None
      ensures flashType == if ok && attribute != attr && attribute == S.BIN_TYPE then GetDWord(old(buff[..]), cur)
                           else old(flashType)
    {
      ok := true;
      if attribute == attr {
        assert buff[cur..cur + len] == buff[..][cur..cur + len];
        checksumPos := if len > 0 then Some(buff[cur..cur + len]) else None;
        ghost var before := buff[..];
        forall i | cur <= i < cur + len {
          buff[i] := 0;
        }
        assert buff[..][cur..cur + len] == Zeros(len);
        OverlayUnique(before, cur, Zeros(len), buff[..]);
      } else if attribute == S.BIN_TYPE {
        if cur + 4 > headLen {
          return false;
        }
        var flash := GetDWord(buff[..], cur);
        if flash >= S.UPDATE_INFO {
          return false;
        }
        flashType := flash;
      }
    }

    /** Walks the TLVs in place, once; left_len falls with every turn. */
    method WalkTlvs() returns (ok: bool)
      requires Valid() && buff != null && storedLen == headLen
      modifies this`checksumPos, this`flashType, buff
      ensures Valid()
      ensures S.Walk(old(buff[..]), S.MIN_LEN, attr, old(checksumPos), old(flashType))
           == S.Walked(ok, buff[..], checksumPos, flashType)
    {
      hide Overlay, GetWord, GetDWord;
      ghost var goal := S.Walk(buff[..], S.MIN_LEN, attr, checksumPos, flashType);
      var cur := S.MIN_LEN;
      var leftLen := headLen - S.MIN_LEN;
      while leftLen > 0
        invariant Valid() && buff != null && 0 <= cur && 0 <= leftLen && cur + leftLen == headLen
        invariant S.Walk(buff[..], cur, attr, checksumPos, flashType) == goal
        decreases leftLen
      {
        if leftLen < 4 {
          return false;
        }
        var attribute := GetWord(buff[..], cur);
        var len := GetWord(buff[..], cur + 2);
        cur := cur + 4;
        if leftLen < 4 + len {
          return false;
        }
        ok := HandleTlv(attribute, cur, len);
        if !ok {
          return false;
        }
        cur := cur + len;
        leftLen := leftLen - (4 + len);
      }
      return checksumPos.Some?;
    }

    method ParseTlvs() returns (ok: bool)
      requires Valid() && buff != null && storedLen == headLen
      modifies this`checksumPos, this`flashType, this`digest, buff
      ensures Valid() && S.ParseTlvs(old(State()), attr) == (State(), ok)
    {
      hide S.Walk;
      assert buff[..storedLen] == buff[..];
      ok := WalkTlvs();
      assert buff[..storedLen] == buff[..];
      if ok {
        digest := Some(S.Digest(buff[..storedLen], false, 0));
      }
    }

    /** The part behind the fixed fields. */
    method ParseRest(at: nat, rest: Bytes, used: nat) returns (ok: bool, total: nat)
      requires Valid()
      modifies this, buff
      ensures Valid() && buff == old(buff)
      ensures S.ParseRest(old(State()), attr, at, rest, used) == S.Step(State(), ok, total)
    {
      hide S.ParseTlvs, GetDWord;
      if headLen < S.MIN_LEN || buff == null || (storedLen < headLen && at > storedLen) {
        return false, 0;
      }
      if at < headLen {
        var copy := Min(|rest|, headLen - at);
        Store(at, rest[..copy]);
        total := copy + used;
        if storedLen >= headLen {
          var saveLen := GetField(8);
          if saveLen <= headLen {
            return false, total;
          }
          ok := ParseTlvs();
          return;
        }
        return true, total;
      }
      return true, 0;
    }

    /** pack_head_parse: the state after it is the specified one. */
    method Parse(at: nat, chunk: Bytes) returns (ok: bool, used: nat)
      requires Valid()
      modifies this, buff
      ensures Valid() && (buff == old(buff) || fresh(buff))
      ensures var s := S.Parse(old(State()), attr, at, chunk);
              s.head == State() && s.ok == ok && (ok ==> s.used == used)
    {
      hide S.ParseHeadLen, S.ParseRest;
      var first;
      ok, first := ParseHeadLen(at, chunk);
      if !ok {
        return false, 0;
      }
      if |chunk| - first == 0 && storedLen < headLen {
        return true, first;
      }
      ok, used := ParseRest(at + first, chunk[first..], first);
    }

    /** pack_head_get_head_len. */
    method GetHeadLen() returns (len: nat)
      requires Valid()
      ensures len == State().Length()
    {
      len := if headLen >= S.MIN_LEN && storedLen == headLen then headLen else 0;
    }
  }
}
