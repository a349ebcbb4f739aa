/**
 The serial line driver (bsp_ser): the line editor of BSP_Ser_RdStr with its echo, and the
 newline expansion of BSP_Ser_WrStr. Received bytes come from an input script and transmitted
 bytes go to an output log.
 */
module BspSer {
  import opened Sequences
  import opened Wrappers

  const BACKSPACE: nat := 0x08
  const LINE_FEED: nat := 0x0A
  const CARRIAGE_RETURN: nat := 0x0D
  const SPACE: nat := 0x20
  const TILDE: nat := 0x7E

  predicate IsPrint(c: nat) {
    SPACE <= c <= TILDE
  }

  predicate IsEnd(c: nat) {
    c == CARRIAGE_RETURN || c == LINE_FEED
  }

  /** The bytes and classes of bytes as characters of the ASCII table. */
  lemma AsciiTable(c: nat)
    ensures LINE_FEED == '\n' as int && CARRIAGE_RETURN == '\r' as int && BACKSPACE == '\U{0008}' as int
    ensures IsEnd(c) <==> c == '\n' as int || c == '\r' as int
    ensures IsPrint(c) <==> ' ' as int <= c <= '~' as int
  {
  }

  /** Input with no line end. */
  predicate IsBody(body: seq<nat>) {
    forall i | 0 <= i < |body| :: !IsEnd(body[i])
  }

  /** The characters of a buffer up to the first NUL. */
  function CString(s: seq<nat>): seq<nat> {
    if s == [] || s[0] == 0 then [] else [s[0]] + CString(s[1..])
  }

  // The line editor

  /** The buffer index (an 8-bit CPU_CHAR) and the buffer. */
  datatype Line = Line(ix: nat, buf: seq<nat>)

  /** The largest value the index can reach for a line of `len` characters. */
  function Reach(len: nat): nat {
    if len < 255 then len else 255
  }

  /** What one received byte, not a line end, does to the buffer. */
  function Edit1(len: nat, l: Line, c: nat): (l': Line)
    requires l.ix <= Reach(len) < |l.buf|
    ensures l'.ix <= Reach(len) && |l'.buf| == |l.buf|
    ensures l'.buf[Reach(len) + 1..] == l.buf[Reach(len) + 1..]
  {
    if c == BACKSPACE then
      if l.ix > 0 then Line(l.ix - 1, l.buf[l.ix - 1 := 0]) else l
    else if IsPrint(c) then
      var ix := if l.ix == 255 then 0 else l.ix + 1;
      Line(if ix >= len then len else ix, l.buf[l.ix := c])
    else l
  }

  /** The bytes echoed for one received byte when the index is `ix`. */
  function Echo1(ix: nat, c: nat): seq<nat> {
    if c == BACKSPACE then (if ix > 0 then [BACKSPACE, SPACE, BACKSPACE] else [])
    else if IsPrint(c) then [c]
    else []
  }

  function Edit(len: nat, start: seq<nat>, body: seq<nat>): (l: Line)
    requires Reach(len) < |start|
    ensures l.ix <= Reach(len) && |l.buf| == |start|
    ensures l.buf[Reach(len) + 1..] == start[Reach(len) + 1..]
  {
    if body == [] then Line(0, start[0 := 0]) else
    Edit1(len, Edit(len, start, body[..|body| - 1]), body[|body| - 1])
  }

  function Echo(len: nat, start: seq<nat>, body: seq<nat>): seq<nat>
    requires Reach(len) < |start|
  {
    if body == [] then [] else
    var init := body[..|body| - 1];
    Echo(len, start, init) + Echo1(Edit(len, start, init).ix, body[|body| - 1])
  }

  /** The buffer when a line end follows `body`. */
  function Finish(len: nat, start: seq<nat>, body: seq<nat>): seq<nat>
    requires Reach(len) < |start|
  {
    var l := Edit(len, start, body);
    l.buf[l.ix := 0]
  }

  /**
   BSP_Ser_RdStr. `acquired` is the verdict of the wait for the lock; `used` counts the bytes
   taken from the input script.
   */
  method RdStr(p: array<nat>, len: nat, input: seq<nat>, acquired: bool) returns (echo: seq<nat>, used: nat)
    requires Reach(len) < p.Length
    requires exists i | 0 <= i < |input| :: input[i] == 0x0D || input[i] == 0x0A
    modifies p
    ensures !acquired ==> echo == [] && used == 0 && p[..] == old(p[..])[0 := 0]
    ensures acquired ==>
              && 1 <= used <= |input| && (input[used - 1] == 0x0D || input[used - 1] == 0x0A)
              && (forall i | 0 <= i < used - 1 :: input[i] != 0x0D && input[i] != 0x0A)
              && echo == Echo(len, old(p[..]), input[..used - 1]) + [0x0A, 0x0D]
              && p[..] == Finish(len, old(p[..]), input[..used - 1])
  {
    hide Edit, Echo;
    ghost var start := p[..];
    EditStart(len, start);
    var ix: nat := 0;
    p[0] := 0;
    echo, used := [], 0;
    if !acquired {
      return;
    }
    while true
      invariant used < |input| && forall i | 0 <= i < used :: !IsEnd(input[i])
      invariant exists i | used <= i < |input| :: IsEnd(input[i])
      invariant Line(ix, p[..]) == Edit(len, start, input[..used])
      invariant echo == Echo(len, start, input[..used])
      decreases |input| - used
    {
      var c := input[used];
      EditSnoc(len, start, input[..used], c);
      assert input[..used + 1] == input[..used] + [c];
      used := used + 1;
      if IsEnd(c) {
        echo := echo + [LINE_FEED] + [CARRIAGE_RETURN];
        p[ix] := 0;
        break;
      }
      if c == BACKSPACE {
        if ix > 0 {
          echo := echo + [BACKSPACE] + [SPACE] + [BACKSPACE];
          ix := ix - 1;
          p[ix] := 0;
        }
      }
      if IsPrint(c) {
        echo := echo + [c];
        p[ix] := c;
        ix := if ix == 255 then 0 else ix + 1;
        if ix >= len {
          ix := len;
        }
      }
    }
  }

  lemma EditStart(len: nat, start: seq<nat>)
    requires Reach(len) < |start|
    ensures Edit(len, start, []) == Line(0, start[0 := 0]) && Echo(len, start, []) == []
  {
  }

  lemma EditSnoc(len: nat, start: seq<nat>, body: seq<nat>, c: nat)
    requires Reach(len) < |start|
    ensures Edit(len, start, body + [c]) == Edit1(len, Edit(len, start, body), c)
    ensures Echo(len, start, body + [c]) == Echo(len, start, body) + Echo1(Edit(len, start, body).ix, c)
  {
    assert (body + [c])[..|body|] == body;
  }

  // The editor as a bounded stack

  /** Printables push and are dropped when full, backspace pops, the rest is ignored. */
  function Stack(len: nat, body: seq<nat>): (s: seq<nat>)
    ensures |s| <= len && forall i | 0 <= i < |s| :: IsPrint(s[i])
  {
    if body == [] then [] else
    var s, c := Stack(len, body[..|body| - 1]), body[|body| - 1];
    if c == BACKSPACE then (if s == [] then s else s[..|s| - 1])
    else if IsPrint(c) && |s| < len then s + [c]
    else s
  }

  lemma {:induction false} EditIsStack(len: nat, start: seq<nat>, body: seq<nat>)
    requires len <= 254 && len < |start|
    ensures var l := Edit(len, start, body);
            l.ix == |Stack(len, body)| && l.buf[..l.ix] == Stack(len, body)
  {
    if body != [] {
      EditIsStack(len, start, body[..|body| - 1]);
    }
  }

  lemma {:induction false} CStringOf(s: seq<nat>, rest: seq<nat>)
    requires 0 !in s
    ensures CString(s + [0] + rest) == s
  {
    if s == [] {
      assert (s + [0] + rest)[0] == 0;
    } else {
      CStringOf(s[1..], rest);
      assert (s + [0] + rest)[1..] == s[1..] + [0] + rest;
    }
  }

  /** For lines of up to 254 characters the string read is the stack, and cells past len keep their values. */
  lemma RdStrRefinesStack(len: nat, start: seq<nat>, body: seq<nat>)
    requires len <= 254 && len < |start|
    ensures CString(Finish(len, start, body)) == Stack(len, body)
    ensures Finish(len, start, body)[len + 1..] == start[len + 1..]
  {
    EditIsStack(len, start, body);
    var l := Edit(len, start, body);
    assert Finish(len, start, body) == Stack(len, body) + [0] + l.buf[l.ix + 1..];
    CStringOf(Stack(len, body), l.buf[l.ix + 1..]);
  }

  // The whole buffer: what was erased is overwritten with NULs

  /** The most characters that the stack has held. */
  function Peak(len: nat, body: seq<nat>): nat {
    if body == [] then 0 else
    var before, now := Peak(len, body[..|body| - 1]), |Stack(len, body)|;
    if now > before then now else before
  }

  /** What the stack dropped last, if anything. */
  function LastDropped(len: nat, body: seq<nat>): Option<nat> {
    if body == [] then None else
    var init, c := body[..|body| - 1], body[|body| - 1];
    if c != BACKSPACE && IsPrint(c) && |Stack(len, init)| == len then Some(c) else LastDropped(len, init)
  }

  /**
   Every cell of the buffer: the stack, then NULs where characters were erased, then what was
   there before; but a dropped character goes to the cell behind the last one.
   */
  lemma {:induction false} Cells(len: nat, start: seq<nat>, body: seq<nat>, k: nat)
    requires len <= 254 && len < |start| && k < |start|
    ensures |Stack(len, body)| <= Peak(len, body) <= len
    ensures Edit(len, start, body).buf[k]
         == if k < |Stack(len, body)| then Stack(len, body)[k]
            else if k < Peak(len, body) || (k == 0 && LastDropped(len, body) == None) then 0
            else if k == len && LastDropped(len, body).Some? then LastDropped(len, body).value
            else start[k]
  {
    EditIsStack(len, start, body);
    if body != [] {
      var init := body[..|body| - 1];
      EditIsStack(len, start, init);
      Cells(len, start, init, k);
    }
  }

  /** What BSP_Ser_RdStr leaves in every cell; no erased character stays behind the string. */
  lemma FinishedCells(len: nat, start: seq<nat>, body: seq<nat>, k: nat)
    requires len <= 254 && len < |start| && k < |start|
    ensures var n := |Stack(len, body)|;
            Finish(len, start, body)[k]
            == if k < n then Stack(len, body)[k]
               else if k == n || k < Peak(len, body) then 0
               else if k == len && LastDropped(len, body).Some? then LastDropped(len, body).value
               else start[k]
  {
    EditIsStack(len, start, body);
    Cells(len, start, body, k);
  }

  lemma {:induction false} FillsUp(len: nat, start: seq<nat>, c: nat, n: nat)
    requires len >= 255 && 255 < |start| && IsPrint(c) && n <= 255
    ensures Edit(len, start, Repeat(c, n)).ix == n && |Stack(len, Repeat(c, n))| == n
  {
    if n > 0 {
      assert Repeat(c, n)[..n - 1] == Repeat(c, n - 1);
      FillsUp(len, start, c, n - 1);
    }
  }

  /** From 255 characters on, the 256th printable wraps the index and the line is lost. */
  lemma LongLineLost(len: nat, start: seq<nat>, c: nat)
    requires len >= 255 && 255 < |start| && IsPrint(c)
    ensures CString(Finish(len, start, Repeat(c, 256))) == [] && Stack(len, Repeat(c, 256)) != []
  {
    assert Repeat(c, 256)[..255] == Repeat(c, 255);
    FillsUp(len, start, c, 255);
  }

  /** The editor is the stack for every input exactly for lines of up to 254 characters. */
  lemma RefinesStackExactly(len: nat, start: seq<nat>)
    requires Reach(len) < |start|
    ensures len <= 254 <==>
              forall body | IsBody(body) :: CString(Finish(len, start, body)) == Stack(len, body)
  {
    if len <= 254 {
      forall body | IsBody(body) ensures CString(Finish(len, start, body)) == Stack(len, body) {
        RdStrRefinesStack(len, start, body);
      }
    } else {
      LongLineLost(len, start, SPACE);
      assert IsBody(Repeat(SPACE, 256));
    }
  }

  // The echo on a terminal

  /** A terminal line: its cells, blank from |cells| on, and the cursor. */
  datatype Terminal = Terminal(cells: seq<nat>, cursor: nat)

  function Put(t: Terminal, c: nat): Terminal {
    if c == BACKSPACE then t.(cursor := if t.cursor > 0 then t.cursor - 1 else 0)
    else if t.cursor < |t.cells| then Terminal(t.cells[t.cursor := c], t.cursor + 1)
    else Terminal(t.cells + Repeat(SPACE, t.cursor - |t.cells|) + [c], t.cursor + 1)
  }

  function Replay(bytes: seq<nat>): Terminal {
    if bytes == [] then Terminal([], 0) else Put(Replay(bytes[..|bytes| - 1]), bytes[|bytes| - 1])
  }

  /** The line shows exactly `text`, blanks after it, and the cursor stands behind it. */
  predicate Shows(t: Terminal, text: seq<nat>) {
    && t.cursor == |text| <= |t.cells| && t.cells[..|text|] == text
    && forall i | |text| <= i < |t.cells| :: t.cells[i] == SPACE
  }

  /** What stays on the screen: every printable, less what backspaces with a nonzero index erase. */
  function Display(len: nat, start: seq<nat>, body: seq<nat>): (text: seq<nat>)
    requires Reach(len) < |start|
    ensures |text| >= Edit(len, start, body).ix
  {
    if body == [] then [] else
    var init, c := body[..|body| - 1], body[|body| - 1];
    var text := Display(len, start, init);
    Display1(text, Edit(len, start, init).ix, c)
  }

  /** What one more received byte does to the text shown when the index is `ix`. */
  function Display1(text: seq<nat>, ix: nat, c: nat): seq<nat>
    requires ix <= |text|
  {
    if c == BACKSPACE then (if ix > 0 then text[..|text| - 1] else text)
    else if IsPrint(c) then text + [c]
    else text
  }

  lemma ReplaySnoc(bytes: seq<nat>, c: nat)
    ensures Replay(bytes + [c]) == Put(Replay(bytes), c)
  {
    assert (bytes + [c])[..|bytes|] == bytes;
  }

  lemma ReplayErase(bytes: seq<nat>, text: seq<nat>)
    requires Shows(Replay(bytes), text) && text != []
    ensures Shows(Replay(bytes + [BACKSPACE, SPACE, BACKSPACE]), text[..|text| - 1])
  {
    ReplaySnoc(bytes, BACKSPACE);
    ReplaySnoc(bytes + [BACKSPACE], SPACE);
    ReplaySnoc(bytes + [BACKSPACE] + [SPACE], BACKSPACE);
    assert bytes + [BACKSPACE, SPACE, BACKSPACE] == bytes + [BACKSPACE] + [SPACE] + [BACKSPACE];
  }

  /** The echoed bytes draw the display, for every input and every length. */
  lemma {:induction false} EchoDraws(len: nat, start: seq<nat>, body: seq<nat>)
    requires Reach(len) < |start|
    ensures Shows(Replay(Echo(len, start, body)), Display(len, start, body))
  {
    if body != [] {
      hide Edit, Replay, Shows;
      EchoDraws(len, start, body[..|body| - 1]);
      EchoDraws1(Echo(len, start, body[..|body| - 1]), Display(len, start, body[..|body| - 1]),
                 Edit(len, start, body[..|body| - 1]).ix, body[|body| - 1]);
    } else {
      assert Replay([]) == Terminal([], 0);
    }
  }

  /** What one more received byte adds to the screen. */
  lemma EchoDraws1(echo: seq<nat>, text: seq<nat>, ix: nat, c: nat)
    requires Shows(Replay(echo), text) && |text| >= ix
    ensures Shows(Replay(echo + Echo1(ix, c)), Display1(text, ix, c))
  {
    if c == BACKSPACE && ix > 0 {
      ReplayErase(echo, text);
    } else if IsPrint(c) {
      ReplaySnoc(echo, c);
    } else {
      assert echo + [] == echo;
    }
  }

  /** Printables that arrive when the index has reached its end: echoed, but the index does not advance. */
  function Overrun(len: nat, start: seq<nat>, body: seq<nat>): nat
    requires Reach(len) < |start|
  {
    if body == [] then 0 else
    var init, c := body[..|body| - 1], body[|body| - 1];
    Overrun(len, start, init) + (if IsPrint(c) && Edit(len, start, init).ix == Reach(len) then 1 else 0)
  }

  /** How far overruns take the cursor ahead: each time the index stays, or it wraps from 255 to 0. */
  function Ahead(len: nat, overruns: nat): nat {
    if len <= 254 then overruns else 256 * overruns
  }

  lemma {:induction false} DisplayIsAhead(len: nat, start: seq<nat>, body: seq<nat>)
    requires Reach(len) < |start|
    ensures var l := Edit(len, start, body);
            && |Display(len, start, body)| == l.ix + Ahead(len, Overrun(len, start, body))
            && (Overrun(len, start, body) == 0 ==> Display(len, start, body) == l.buf[..l.ix])
  {
    if body != [] {
      DisplayIsAhead(len, start, body[..|body| - 1]);
      hide IsPrint;
    }
  }

  /**
   The terminal shows exactly the buffered characters, with the cursor at the buffer index, if
   and only if no printable ever arrived at the index's end; each one that did leaves the cursor
   further ahead for good, by one column, or by 256 where the 8-bit index wraps. This holds for
   every length the caller can give.
   */
  lemma EchoAgreesExactly(len: nat, start: seq<nat>, body: seq<nat>)
    requires Reach(len) < |start|
    ensures var l, t := Edit(len, start, body), Replay(Echo(len, start, body));
            && (Shows(t, l.buf[..l.ix]) <==> Overrun(len, start, body) == 0)
            && t.cursor == l.ix + Ahead(len, Overrun(len, start, body))
  {
    EchoDraws(len, start, body);
    DisplayIsAhead(len, start, body);
  }

  /** In every line of 255 characters or more the buffer holds what is shown behind the last wrap. */
  lemma {:induction false} LongLineShown(len: nat, start: seq<nat>, body: seq<nat>)
    requires 255 <= len && 255 < |start|
    ensures var l, text := Edit(len, start, body), Display(len, start, body);
            && |text| == l.ix + 256 * Overrun(len, start, body)
            && l.buf[..l.ix] == text[256 * Overrun(len, start, body)..]
            && forall i | 0 <= i < |text| :: IsPrint(text[i])
  {
    if body != [] {
      var init, c := body[..|body| - 1], body[|body| - 1];
      LongLineShown(len, start, init);
      LongLineStep(len, Edit(len, start, init), Display(len, start, init), Overrun(len, start, init), c);
      hide Edit1, Display1, IsPrint;
    }
  }

  lemma LongLineStep(len: nat, l: Line, text: seq<nat>, overruns: nat, c: nat)
    requires 255 <= len && l.ix <= 255 < |l.buf|
    requires |text| == l.ix + 256 * overruns && l.buf[..l.ix] == text[256 * overruns..]
    requires forall i | 0 <= i < |text| :: IsPrint(text[i])
    ensures var l', text' := Edit1(len, l, c), Display1(text, l.ix, c);
            var n := overruns + if IsPrint(c) && l.ix == 255 then 1 else 0;
            && |text'| == l'.ix + 256 * n && l'.buf[..l'.ix] == text'[256 * n..]
            && forall i | 0 <= i < |text'| :: IsPrint(text'[i])
  {
    assert !IsPrint(BACKSPACE);
    hide IsPrint;
    var k := 256 * overruns;
    if c == BACKSPACE && l.ix > 0 {
      assert text[k..|text| - 1] == text[k..][..l.ix - 1];
    } else if c != BACKSPACE && IsPrint(c) && l.ix < 255 {
      assert (text + [c])[k..] == text[k..] + [c];
    }
  }

  /**
   For len >= 255 the string read is what the terminal shows less its first 256 characters for
   every overrun: with EditIsStack this says what is read for every length.
   */
  lemma LongLineRead(len: nat, start: seq<nat>, body: seq<nat>)
    requires 255 <= len && 255 < |start|
    ensures 256 * Overrun(len, start, body) <= |Display(len, start, body)|
    ensures CString(Finish(len, start, body)) == Display(len, start, body)[256 * Overrun(len, start, body)..]
  {
    LongLineShown(len, start, body);
    var l := Edit(len, start, body);
    assert Finish(len, start, body) == l.buf[..l.ix] + [0] + l.buf[l.ix + 1..];
    CStringOf(l.buf[..l.ix], l.buf[l.ix + 1..]);
  }

  /** Printables that the stack drops. */
  function Dropped(len: nat, body: seq<nat>): nat {
    if body == [] then 0 else
    var init, c := body[..|body| - 1], body[|body| - 1];
    Dropped(len, init) + (if IsPrint(c) && |Stack(len, init)| == len then 1 else 0)
  }

  lemma {:induction false} OverrunIsDropped(len: nat, start: seq<nat>, body: seq<nat>)
    requires len <= 254 && len < |start|
    ensures Overrun(len, start, body) == Dropped(len, body)
  {
    if body != [] {
      OverrunIsDropped(len, start, body[..|body| - 1]);
      EditIsStack(len, start, body[..|body| - 1]);
    }
  }

  /** Up to 254 characters: the terminal shows the stack exactly when the stack dropped nothing. */
  lemma EchoShowsStack(len: nat, start: seq<nat>, body: seq<nat>)
    requires len <= 254 && len < |start|
    ensures Shows(Replay(Echo(len, start, body)), Stack(len, body)) <==> Dropped(len, body) == 0
    ensures Replay(Echo(len, start, body)).cursor == |Stack(len, body)| + Dropped(len, body)
  {
    hide Edit, Echo, Replay, Stack, Shows;
    EchoAgreesExactly(len, start, body);
    OverrunIsDropped(len, start, body);
    EditIsStack(len, start, body);
  }

  // Newline expansion

  function Expand(s: seq<nat>): seq<nat> {
    if s == [] then []
    else if s[0] == LINE_FEED then [CARRIAGE_RETURN, LINE_FEED] + Expand(s[1..])
    else [s[0]] + Expand(s[1..])
  }

  /** Replacing CR LF by LF, left to right. */
  function Collapse(t: seq<nat>): seq<nat> {
    if t == [] then []
    else if |t| >= 2 && t[0] == CARRIAGE_RETURN && t[1] == LINE_FEED then [LINE_FEED] + Collapse(t[2..])
    else [t[0]] + Collapse(t[1..])
  }

  /** BSP_Ser_WrStr: writes the NUL-terminated string at `p`. */
  method WrStr(p: array<nat>, acquired: bool) returns (out: seq<nat>)
    requires 0 in p[..]
    ensures out == if acquired then Expand(CString(p[..])) else []
  {
    hide Expand, CString;
    out := [];
    if !acquired {
      return;
    }
    var i := 0;
    while p[i] != 0
      invariant i < p.Length && 0 in p[i..]
      invariant out + Expand(CString(p[i..])) == Expand(CString(p[..]))
      decreases p.Length - i
    {
      assert p[i..][1..] == p[i + 1..];
      ExpandCons(p[i..]);
      if p[i] == LINE_FEED {
        out := out + [CARRIAGE_RETURN] + [LINE_FEED];
      } else {
        out := out + [p[i]];
      }
      i := i + 1;
    }
    ExpandNul(p[i..]);
  }

  lemma ExpandNul(s: seq<nat>)
    requires s != [] && s[0] == 0
    ensures Expand(CString(s)) == []
  {
  }

  lemma ExpandCons(s: seq<nat>)
    requires s != [] && s[0] != 0
    ensures Expand(CString(s))
         == (if s[0] == LINE_FEED then [CARRIAGE_RETURN, LINE_FEED] else [s[0]]) + Expand(CString(s[1..]))
  {
  }

  lemma ExpandHead(s: seq<nat>)
    ensures Expand(s) == [] || Expand(s)[0] != LINE_FEED
  {
  }

  /** The source string is recovered from what WrStr sends, whatever CRs it contains. */
  lemma {:induction false} CollapseExpand(s: seq<nat>)
    ensures Collapse(Expand(s)) == s
  {
    if s != [] {
      CollapseExpand(s[1..]);
      ExpandHead(s[1..]);
      var t := Expand(s);
      if s[0] == LINE_FEED {
        assert t[2..] == Expand(s[1..]);
      } else {
        assert t[1..] == Expand(s[1..]);
      }
    }
  }

  /** Every LF has a CR right before it. */
  predicate AllNewlinesExpanded(t: seq<nat>) {
    forall i | 0 <= i < |t| && t[i] == LINE_FEED :: i > 0 && t[i - 1] == CARRIAGE_RETURN
  }

  lemma {:induction false} ExpandedNewlines(s: seq<nat>)
    ensures AllNewlinesExpanded(Expand(s))
  {
    if s != [] {
      ExpandedNewlines(s[1..]);
      var t, rest := Expand(s), Expand(s[1..]);
      forall i | 0 <= i < |t| && t[i] == LINE_FEED ensures i > 0 && t[i - 1] == CARRIAGE_RETURN {
        var n := |t| - |rest|;
        if i >= n {
          assert t[i] == rest[i - n];
        }
      }
    }
  }

  lemma {:induction false} ExpandCollapse(t: seq<nat>)
    requires AllNewlinesExpanded(t)
    ensures Expand(Collapse(t)) == t
    decreases |t|
  {
    if t != [] {
      if |t| >= 2 && t[0] == CARRIAGE_RETURN && t[1] == LINE_FEED {
        ShiftedNewlines(t, 2);
        ExpandCollapse(t[2..]);
      } else {
        ShiftedNewlines(t, 1);
        ExpandCollapse(t[1..]);
      }
    }
  }

  lemma ShiftedNewlines(t: seq<nat>, n: nat)
    requires n <= |t| && AllNewlinesExpanded(t)
    requires n == |t| || t[n] != LINE_FEED
    ensures AllNewlinesExpanded(t[n..])
  {
  }

  /** The streams WrStr can send are exactly those in which every LF follows a CR. */
  lemma SentStreams(t: seq<nat>)
    ensures AllNewlinesExpanded(t) <==> exists s :: Expand(s) == t
  {
    if AllNewlinesExpanded(t) {
      ExpandCollapse(t);
    }
    if s :| Expand(s) == t {
      ExpandedNewlines(s);
    }
  }
}
