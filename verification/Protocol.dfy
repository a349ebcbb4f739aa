/**
 The UDP frame codec (protocol_bsp): head, data length, data, an 8-bit sum over everything before
 it, and the end byte.

 The builder's checksum call names the running index while the same statement increments it; the
 model takes the reading in which the sum covers the 2 + datalen bytes already written.
 */
module Protocol {
  import opened Sequences

  const HEAD: nat := 0xBC
  const END: nat := 0xCB
  const TX_SIZE: nat := 1500
  const DATA_OFFSET: nat := 3    // where the checker points its data, one past the builder's

  /** The sum of the bytes in 8 bits. */
  function Sum8(s: seq<nat>): (sum: nat)
    ensures sum < 256
  {
    if s == [] then 0 else (Sum8(s[..|s| - 1]) + s[|s| - 1]) % 256
  }

  /** Head, a data length, bytes, and the sum of all of these before the end byte. */
  function Frame(head: nat, datalen: nat, data: seq<nat>, end: nat): seq<nat> {
    [head, datalen] + data + [Sum8([head, datalen] + data), end]
  }

  /** What the builder makes: the data length is that of the data. */
  function Build(head: nat, data: seq<nat>, end: nat): seq<nat> {
    Frame(head, |data|, data, end)
  }

  /**
   A buffer of which `len` bytes are received. With no byte received the checker still reads the
   first one, and it stays inside the buffer only if that one is no head.
   */
  predicate IsReception(buff: seq<nat>, len: nat) {
    |buff| >= 2 && len <= |buff| && (len == 0 ==> buff[0] != HEAD)
  }

  /** The part of a received buffer that the checker looks at. */
  function Clipped(buff: seq<nat>, len: nat): nat
    requires |buff| >= 2
  {
    if len > buff[1] + 4 then buff[1] + 4 else len
  }

  /** The checker's verdict on the first `len` bytes of a buffer. */
  predicate Accepts(buff: seq<nat>, len: nat)
    requires IsReception(buff, len)
  {
    var n := Clipped(buff, len);
    buff[0] == HEAD && buff[n - 1] == END && n >= 2 && Sum8(buff[..n - 2]) == buff[n - 2]
  }

  /** What the checker records of an accepted frame. */
  datatype RxFrame = RxFrame(head: nat, datalen: nat, dataOffset: nat, checksum: nat, end: nat)

  /** The record of an accepted frame. */
  function RecordOf(buff: seq<nat>, len: nat): RxFrame
    requires IsReception(buff, len) && Accepts(buff, len)
  {
    RxFrame(HEAD, buff[1], DATA_OFFSET, Sum8(buff[..Clipped(buff, len) - 2]), END)
  }

  /** TOOL_CheckSum8BitGet */
  method CheckSum8BitGet(buff: array<nat>, len: nat) returns (checksum: nat)
    requires len <= buff.Length
    ensures checksum == Sum8(buff[..len])
  {
    checksum := 0;
    var i := 0;
    while i < len
      invariant i <= len && checksum == Sum8(buff[..i])
    {
      assert buff[..i + 1][..i] == buff[..i];
      checksum := (checksum + buff[i]) % 256;
      i := i + 1;
    }
  }

  class Link {
    const txBuff: array<nat>
    var txLen: nat
    var rxFrame: RxFrame

    constructor ()
      ensures fresh(txBuff) && txBuff.Length == TX_SIZE && txBuff[..] == Repeat(0, TX_SIZE) && txLen == 0
      ensures rxFrame == RxFrame(0, 0, 0, 0, 0)
    {
      txBuff := new nat[TX_SIZE](_ => 0);
      txLen := 0;
      rxFrame := RxFrame(0, 0, 0, 0, 0);
    }

    /** PROTOCOL_TxFrame_Get */
    method TxFrameGet(head: nat, datalen: nat, databuff: array<nat>, end: nat)
      requires txBuff.Length == TX_SIZE && databuff != txBuff
      requires datalen < 256 && datalen <= databuff.Length
      modifies this`txLen, txBuff
      ensures txLen == datalen + 4 && txBuff[..txLen] == Build(head, databuff[..datalen], end)
      ensures txBuff[txLen..] == old(txBuff[datalen + 4..])
    {
      var index := 0;
      txBuff[index] := head;
      index := index + 1;
      txBuff[index] := datalen;
      index := index + 1;
      forall i | 0 <= i < datalen {
        txBuff[index + i] := databuff[i];
      }
      index := index + datalen;
      assert txBuff[..index] == [head, datalen] + databuff[..datalen];
      var checksum := CheckSum8BitGet(txBuff, index);
      txBuff[index] := checksum;
      index := index + 1;
      txBuff[index] := end;
      index := index + 1;
      txLen := index;
      assert txBuff[..index - 2] == [head, datalen] + databuff[..datalen];
    }

    /** PROTOCOL_RevFrame_Check, true for SUCC; the frame record changes on success only. */
    method RevFrameCheck(buff: array<nat>, len: nat) returns (ok: bool)
      requires IsReception(buff[..], len)
      modifies this`rxFrame
      ensures ok == Accepts(buff[..], len)
      ensures rxFrame == if ok then RecordOf(buff[..], len) else old(rxFrame)
    {
      if buff[0] != HEAD {
        return false;
      }
      var datalen := buff[1];
      var n := len;
      if n > datalen + 4 {
        n := datalen + 4;
      }
      if buff[n - 1] != END {
        return false;
      }
      assert n >= 2;
      assert buff[..][..n - 2] == buff[..n - 2];
      var checksum := CheckSum8BitGet(buff, n - 2);
      if checksum != buff[n - 2] {
        return false;
      }
      rxFrame := RxFrame(buff[0], datalen, DATA_OFFSET, checksum, END);
      return true;
    }
  }

  lemma FrameParts(head: nat, datalen: nat, data: seq<nat>, end: nat, rest: seq<nat>)
    ensures var buff, n := Frame(head, datalen, data, end) + rest, |data| + 4;
            && |buff| == n + |rest| && buff[0] == head && buff[1] == datalen && buff[n - 1] == end
            && buff[..n] == Frame(head, datalen, data, end)
            && buff[..n - 2] == [head, datalen] + data
            && buff[n - 2] == Sum8([head, datalen] + data)
  {
    hide Sum8;
    var prefix := [head, datalen] + data;
    var buff := Frame(head, datalen, data, end) + rest;
    assert buff == prefix + ([Sum8(prefix), end] + rest);
  }

  /**
   Every frame built with the right head and end is accepted, whatever bytes follow it, and what
   is recorded of it are its own head, data length, sum and end byte.
   */
  lemma BuiltIsAccepted(data: seq<nat>, rest: seq<nat>, len: nat)
    requires |data| + 4 <= len <= |data| + 4 + |rest|
    ensures var buff := Build(HEAD, data, END) + rest;
            && |buff| == |data| + 4 + |rest| && Accepts(buff, len)
            && Clipped(buff, len) == |data| + 4
            && RecordOf(buff, len)
               == RxFrame(buff[0], |data|, 3, buff[|data| + 2], buff[|data| + 3])
            && buff[2..|data| + 2] == data
            && buff[|data| + 2] == Sum8([HEAD, |data|] + data)
  {
    FrameParts(HEAD, |data|, data, END, rest);
    hide Sum8, Frame;
  }

  /** The verdict and the record depend on no byte outside the clipped length. */
  lemma VerdictIsLocal(buff: seq<nat>, buff': seq<nat>, len: nat, len': nat)
    requires IsReception(buff, len) && IsReception(buff', len')
    requires Clipped(buff, len) == Clipped(buff', len')
    requires buff[..Clipped(buff, len)] == buff'[..Clipped(buff, len)]
    ensures Accepts(buff, len) <==> Accepts(buff', len')
    ensures Accepts(buff, len) ==> RecordOf(buff, len) == RecordOf(buff', len')
  {
    hide Sum8;
    var n := Clipped(buff, len);
    assert forall i | 0 <= i < n :: buff[i] == buff[..n][i] == buff'[..n][i] == buff'[i];
    if n >= 2 {
      assert buff[..n - 2] == buff'[..n - 2];
    }
  }

  lemma SumOne(x: nat)
    ensures Sum8([x]) == x % 256
  {
    assert [x][..0] == [];
  }

  /**
   Everything the checker accepts: a frame around whatever lies between the data length and the
   last two bytes, whether or not the data length agrees, and one frame of three bytes.
   */
  lemma AcceptedForm(buff: seq<nat>, len: nat)
    requires IsReception(buff, len)
    ensures var n := Clipped(buff, len);
            Accepts(buff, len) <==>
              || (n >= 4 && buff[..n] == Frame(HEAD, buff[1], buff[2..n - 2], END))
              || (n == 3 && buff[..n] == [HEAD, HEAD, END])
  {
    var n := Clipped(buff, len);
    if n >= 4 {
      hide Sum8;
      var data := buff[2..n - 2];
      assert buff[..n - 2] == [buff[0], buff[1]] + data;
      assert buff[..n] == buff[..n - 2] + [buff[n - 2], buff[n - 1]];
      if buff[..n] == Frame(HEAD, buff[1], data, END) {
        FrameParts(HEAD, buff[1], data, END, buff[n..]);
        assert buff == buff[..n] + buff[n..];
      }
    } else if n == 3 {
      assert buff[..3] == [buff[0], buff[1], buff[2]] && buff[..1] == [buff[0]];
      SumOne(buff[0]);
    } else if n == 2 {
      assert buff[..0] == [];
    }
  }

  /**
   What the checker looks at is a frame that the builder can have made, from whatever data,
   exactly when the checker accepts it and as many bytes came as the data length asks for.
   */
  lemma AcceptedIsBuilt(buff: seq<nat>, len: nat)
    requires IsReception(buff, len)
    ensures (exists data :: buff[..Clipped(buff, len)] == Build(HEAD, data, END))
            <==> Accepts(buff, len) && buff[1] + 4 <= len
  {
    hide Sum8;
    var n := Clipped(buff, len);
    if data :| buff[..n] == Build(HEAD, data, END) {
      FrameParts(HEAD, |data|, data, END, []);
      assert n == |data| + 4 && buff[1] == buff[..n][1] == |data|;
      BuiltIsAccepted(data, buff[n..], len);
      assert buff == buff[..n] + buff[n..];
    }
    if Accepts(buff, len) && buff[1] + 4 <= len {
      AcceptedForm(buff, len);
      assert buff[..n] == Build(HEAD, buff[2..n - 2], END);
    }
  }

  /** Too short for its data length, and accepted: every such frame of four bytes or more. */
  lemma ShortFrameAccepted(datalen: nat, data: seq<nat>, rest: seq<nat>)
    requires |data| < datalen
    ensures var buff := Frame(HEAD, datalen, data, END) + rest;
            && IsReception(buff, |data| + 4) && Accepts(buff, |data| + 4)
            && forall built :: buff[..|data| + 4] != Build(HEAD, built, END)
  {
    hide Sum8;
    var buff, len := Frame(HEAD, datalen, data, END) + rest, |data| + 4;
    FrameParts(HEAD, datalen, data, END, rest);
    assert Accepts(buff, len);
    AcceptedIsBuilt(buff, len);
  }

  /** For which data lengths and shorter receptions the checker can accept. */
  lemma ShortFramesExactly(datalen: nat, len: nat)
    requires 1 <= len < datalen + 4
    ensures (exists buff :: IsReception(buff, len) && buff[1] == datalen && Accepts(buff, len))
            <==> len >= 4 || (len == 3 && datalen == HEAD)
  {
    hide Sum8;
    if len >= 4 {
      var data := Repeat(0, len - 4);
      ShortFrameAccepted(datalen, data, []);
      FrameParts(HEAD, datalen, data, END, []);
      var buff := Frame(HEAD, datalen, data, END) + [];
      assert IsReception(buff, len) && buff[1] == datalen && Accepts(buff, len);
    } else if len == 3 && datalen == HEAD {
      var buff := [HEAD, HEAD, END];
      AcceptedForm(buff, 3);
      assert IsReception(buff, len) && buff[1] == datalen && Accepts(buff, len);
    }
    forall buff | IsReception(buff, len) && buff[1] == datalen && Accepts(buff, len)
      ensures len >= 4 || (len == 3 && datalen == HEAD)
    {
      AcceptedForm(buff, len);
      if len == 3 {
        assert buff[1] == buff[..3][1];
      }
    }
  }

  lemma Mod256(x: int, y: int)
    ensures (x % 256 + y) % 256 == (x + y) % 256
  {
  }

  /** The sum of a concatenation is the sum of the sums, and of one byte that byte. */
  lemma {:induction false} SumConcat(s: seq<nat>, t: seq<nat>, x: nat)
    ensures Sum8(s + t) == (Sum8(s) + Sum8(t)) % 256
    ensures x < 256 ==> Sum8([x]) == x
  {
    hide Sum8;
    if t == [] {
      assert s + t == s;
      SumEmpty();
      SumOne(x);
    } else {
      var init, last := t[..|t| - 1], t[|t| - 1];
      SumConcat(s, init, x);
      assert s + t == (s + init) + [last] && t == init + [last];
      SumSnoc(s + init, last);
      SumSnoc(init, last);
      ModSum(Sum8(s), Sum8(init), last);
    }
  }

  lemma SumEmpty()
    ensures Sum8([]) == 0
  {
  }

  lemma ModSum(a: nat, b: nat, c: nat)
    ensures ((a + b) % 256 + c) % 256 == (a + (b + c) % 256) % 256
  {
  }

  lemma SumSnoc(s: seq<nat>, x: nat)
    ensures Sum8(s + [x]) == (Sum8(s) + x) % 256
  {
    assert (s + [x])[..|s|] == s;
  }

  lemma {:induction false} SumAfterUpdate(s: seq<nat>, i: nat, v: nat)
    requires i < |s|
    ensures Sum8(s[i := v]) == (Sum8(s) + v - s[i]) % 256
  {
    var init, last := s[..|s| - 1], s[|s| - 1];
    Mod256(Sum8(init) + last, v - s[i]);
    if i == |s| - 1 {
      assert s[i := v][..|s| - 1] == init;
    } else {
      SumAfterUpdate(init, i, v);
      Mod256(Sum8(init) + v - s[i], last);
      assert s[i := v][..|s| - 1] == init[i := v];
    }
  }

  lemma SumDiffers(s: seq<nat>, i: nat, v: nat)
    requires i < |s| && s[i] < 256 && v < 256 && v != s[i]
    ensures Sum8(s[i := v]) != Sum8(s)
  {
    SumAfterUpdate(s, i, v);
  }

  /**
   A built frame with one byte changed, and whatever bytes behind it: rejected, except that a
   changed data length can make the checker look at a shorter or a longer frame; then that one decides.
   */
  lemma OneByteChanged(data: seq<nat>, rest: seq<nat>, i: nat, v: nat, len: nat)
    requires |data| < 256 && AreBytes(data) && i < |data| + 4 <= len <= |data| + 4 + |rest|
    requires v < 256 && v != Build(HEAD, data, END)[i]
    ensures var buff := Build(HEAD, data, END)[i := v] + rest;
            var n := Clipped(buff, len);
            && (n != |data| + 4 ==> i == 1 && n == if v + 4 < len then v + 4 else len)
            && (Accepts(buff, len) <==>
                  n != |data| + 4 && buff[n - 1] == END && Sum8(buff[..n - 2]) == buff[n - 2])
  {
    var frame := Build(HEAD, data, END);
    var buff := frame[i := v] + rest;
    var body, n := [HEAD, |data|] + data, |data| + 4;
    FrameParts(HEAD, |data|, data, END, []);
    assert frame + [] == frame;
    if Clipped(buff, len) == n {
      if i < n - 2 {
        assert buff[..n - 2] == body[i := v];
        SumDiffers(body, i, v);
      } else {
        assert buff[..n - 2] == body;
      }
    }
  }
}
