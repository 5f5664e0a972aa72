/** Specification of the receive side of lib-src/pop.c: CRLF lines, multi-line
    responses with their dots (section 3 of RFC 1939), and messages. */
module PopSpec {
  import opened Wrappers
  import opened Bytes

  const QUOTE := 62  // '>'

  predicate CrlfAt(s: seq<byte>, i: nat) {
    i + 1 < |s| && s[i] == 13 && s[i + 1] == 10
  }

  /** Where the first CRLF of s starts. */
  function FirstCrlf(s: seq<byte>): (r: Option<nat>)
    ensures r.Some? ==> CrlfAt(s, r.value) && forall i: nat :: i < r.value ==> !CrlfAt(s, i)
    ensures r.None? ==> forall i: nat :: !CrlfAt(s, i)
  {
    if |s| < 2 then None
    else if s[0] == CR && s[1] == LF then Some(0)
    else
      assert forall i: nat :: 0 < i ==> CrlfAt(s, i) == CrlfAt(s[1..], i - 1);
      match FirstCrlf(s[1..]) case None => None case Some(i) => Some(i + 1)
  }

  lemma FirstCrlfIs(s: seq<byte>, i: nat)
    requires CrlfAt(s, i) && forall j: nat :: j < i ==> !CrlfAt(s, j)
    ensures FirstCrlf(s) == Some(i)
  {
    assert CrlfAt(s, i) && FirstCrlf(s).Some?;
  }

  /** The complete lines of a stream, and what follows the last CRLF. */
  function CrlfLines(s: seq<byte>): (seq<seq<byte>>, seq<byte>) {
    match FirstCrlf(s)
    case None => ([], s)
    case Some(i) => var (ls, rest) := CrlfLines(s[i + 2..]); ([s[..i]] + ls, rest)
  }

  // ----------------------------------------------------- multi-line responses

  /** A line of a multi-line response; None for the terminating line.  A NUL
      behind the dot looks like the end of the line. */
  function Unstuff(line: seq<byte>): Option<seq<byte>> {
    if line == [] || line[0] != DOT then Some(line)
    else if |line| == 1 || line[1] == NUL then None
    else Some(line[1..])
  }

  /** The response at the front of a stream: its lines, whether its terminating
      line is there, and what follows it. */
  datatype Response = Response(lines: seq<seq<byte>>, complete: bool, rest: seq<byte>)

  function ReadResponse(s: seq<byte>): Response {
    match FirstCrlf(s)
    case None => Response([], false, s)
    case Some(i) =>
      match Unstuff(s[..i])
      case None => Response([], true, s[i + 2..])
      case Some(line) => var r := ReadResponse(s[i + 2..]); r.(lines := [line] + r.lines)
  }

  /** How a server sends a response: a dot in front of lines that start with one,
      CRLF behind every line, and a line with a dot alone at the end. */
  function Wire(lines: seq<seq<byte>>): seq<byte> {
    if lines == [] then [46, 13, 10]
    else Stuff(lines[0]) + [13, 10] + Wire(lines[1..])
  }

  function Stuff(line: seq<byte>): seq<byte> {
    if line != [] && line[0] == 46 then [46] + line else line
  }

  /** A line of a message: it may hold CRs, LFs and NULs, but no CRLF. */
  ghost predicate IsLine(line: seq<byte>) {
    forall i: nat {:trigger CrlfAt(line, i)} :: !CrlfAt(line, i)
  }

  lemma LineEndsAt(line: seq<byte>, s: seq<byte>)
    requires IsLine(line)
    ensures FirstCrlf(line + [CR, LF] + s) == Some(|line|)
  {
    var t := line + [CR, LF] + s;
    forall j: nat | j < |line| ensures !CrlfAt(t, j) {
      assert !CrlfAt(line, j);
    }
    FirstCrlfIs(t, |line|);
  }

  lemma StuffedIsLine(line: seq<byte>)
    requires IsLine(line)
    ensures IsLine(Stuff(line)) && Unstuff(Stuff(line)) == Some(line)
  {
    var t := Stuff(line);
    if t != line {
      assert t[1..] == line;
      forall i: nat ensures !CrlfAt(t, i) {
        if i > 0 {
          assert !CrlfAt(line, i - 1);
        }
      }
    }
  }

  /** One line of a response, taken off the front. */
  lemma ReadStep(line: seq<byte>, s: seq<byte>)
    requires IsLine(line)
    ensures ReadResponse(line + [CR, LF] + s) ==
              match Unstuff(line)
              case None => Response([], true, s)
              case Some(l) => var r := ReadResponse(s); r.(lines := [l] + r.lines)
  {
    var t := line + [CR, LF] + s;
    LineEndsAt(line, s);
    assert t[..|line|] == line && t[|line| + 2..] == s;
  }

  /** Reading a response undoes sending it, whatever comes behind it. */
  lemma {:induction false} ReadInvertsWire(lines: seq<seq<byte>>, rest: seq<byte>)
    requires forall k :: 0 <= k < |lines| ==> IsLine(lines[k])
    ensures ReadResponse(Wire(lines) + rest) == Response(lines, true, rest)
  {
    hide ReadResponse, FirstCrlf, Unstuff;
    var s := Wire(lines) + rest;
    if lines == [] {
      assert s == [DOT] + [CR, LF] + rest;
      ReadStep([DOT], rest);
      EndsResponse();
    } else {
      var t := Wire(lines[1..]) + rest;
      StuffedIsLine(lines[0]);
      assert s == Stuff(lines[0]) + [CR, LF] + t;
      ReadStep(Stuff(lines[0]), t);
      ReadInvertsWire(lines[1..], rest);
      assert [lines[0]] + lines[1..] == lines;
    }
  }

  lemma EndsResponse()
    ensures Unstuff([DOT]) == None
  {
  }

  /** In a line that the server sends, a dot alone ends the response, and so does a
      dot with a NUL behind it; otherwise a dot in front is dropped. */
  lemma DotsAreUnstuffed(line: seq<byte>)
    ensures Unstuff([46]) == None && Unstuff([46, 0] + line) == None
    ensures line != [] && line[0] != 0 ==> Unstuff([46] + line) == Some(line)
    ensures line == [] || line[0] != 46 ==> Unstuff(line) == Some(line)
  {
    assert ([46] + line)[1..] == line;
  }

  /** Lines put together again, each with CRLF behind it. */
  function WithCrlf(lines: seq<seq<byte>>): seq<byte> {
    if lines == [] then [] else lines[0] + [13, 10] + WithCrlf(lines[1..])
  }

  /** The lines of a stream are what stands between its CRLFs. */
  lemma {:induction false} CrlfLinesAreLines(s: seq<byte>)
    ensures var (lines, rest) := CrlfLines(s);
            WithCrlf(lines) + rest == s && IsLine(rest) && forall k :: 0 <= k < |lines| ==> IsLine(lines[k])
  {
    hide FirstCrlf, IsLine, WithCrlf;
    match FirstCrlf(s)
    case None => NoCrlfIsLine(s);
    case Some(i) =>
      var (lines, rest) := CrlfLines(s[i + 2..]);
      CrlfLinesAreLines(s[i + 2..]);
      BeforeCrlf(s, i);
      WithCrlfStep(s[..i], lines);
      assert s[..i] + [13, 10] + WithCrlf(lines) + rest == s[..i] + [13, 10] + (WithCrlf(lines) + rest);
  }

  lemma NoCrlfIsLine(s: seq<byte>)
    ensures FirstCrlf(s) == None ==> IsLine(s) && WithCrlf([]) + s == s
  {
    hide FirstCrlf;
  }

  lemma BeforeCrlf(s: seq<byte>, i: nat)
    requires FirstCrlf(s) == Some(i)
    ensures s == s[..i] + [13, 10] + s[i + 2..] && IsLine(s[..i])
  {
    hide FirstCrlf;
    forall j: nat ensures !CrlfAt(s[..i], j) {
      assert j < i ==> !CrlfAt(s, j);
    }
  }

  lemma WithCrlfStep(line: seq<byte>, lines: seq<seq<byte>>)
    ensures WithCrlf([line] + lines) == line + [13, 10] + WithCrlf(lines)
  {
    assert ([line] + lines)[1..] == lines;
  }

  // ----------------------------------------------------------------- messages

  predicate IsFrom(line: seq<byte>) {
    FROM_SPACE <= line
  }

  /** The message as pop_retrieve hands it over: newlines between the lines, and
      From lines quoted on request. */
  function Assembled(lines: seq<seq<byte>>, markfrom: bool): seq<byte> {
    if lines == [] then []
    else Assembled(lines[..|lines| - 1], markfrom) + LineText(lines[|lines| - 1], markfrom)
  }

  /** A message grows by a line and a newline, with '>' in front of "From ". */
  lemma MessageGrows(lines: seq<seq<byte>>, line: seq<byte>, markfrom: bool)
    ensures Assembled([], markfrom) == []
    ensures Assembled(lines + [line], markfrom)
            == Assembled(lines, markfrom) + (if markfrom && Codes("From ") <= line then [62] else []) + line + [10]
  {
    Ascii();
    assert Codes("From ") == FROM_SPACE;
    assert (lines + [line])[..|lines|] == lines;
  }

  function LineText(line: seq<byte>, markfrom: bool): seq<byte> {
    (if markfrom && IsFrom(line) then [QUOTE] else []) + line + [LF]
  }

  /** The size a server reports for a message: two octets for every line end. */
  function Octets(lines: seq<seq<byte>>): nat {
    if lines == [] then 0 else Octets(lines[..|lines| - 1]) + |lines[|lines| - 1]| + 2
  }

  function FromLines(lines: seq<seq<byte>>): nat {
    if lines == [] then 0 else FromLines(lines[..|lines| - 1]) + if IsFrom(lines[|lines| - 1]) then 1 else 0
  }

  /** One octet a line is to spare, which is also what the quotes and the final
      NUL have to live on unless there is room for quotes. */
  lemma {:induction false} AssembledLength(lines: seq<seq<byte>>, markfrom: bool)
    ensures |Assembled(lines, markfrom)| + |lines| == Octets(lines) + if markfrom then FromLines(lines) else 0
  {
    if lines != [] {
      AssembledLength(lines[..|lines| - 1], markfrom);
    }
  }

  lemma {:induction false} OctetsOfPrefix(lines: seq<seq<byte>>, k: nat)
    requires k <= |lines|
    ensures Octets(lines[..k]) + 2 * (|lines| - k) <= Octets(lines)
  {
    if k == |lines| {
      assert lines[..k] == lines;
    } else {
      OctetsOfPrefix(lines[..|lines| - 1], k);
      assert lines[..|lines| - 1][..k] == lines[..k];
    }
  }

  /** Without quoting, the true size is enough for text and final NUL exactly when
      the message has a line. */
  lemma TrueSizeIsEnough(lines: seq<seq<byte>>)
    ensures |Assembled(lines, false)| + 1 <= Octets(lines) <==> lines != []
  {
    AssembledLength(lines, false);
  }
}

/** The receive side of lib-src/pop.c: struct _popserver with its growing buffer,
    fed by a socket that hands out the server's stream in pieces of any size. */
module Pop {
  import opened Wrappers
  import opened Bytes
  import opened PopSpec

  const GETLINE_MIN := 1024
  const GETLINE_INCR := 1024

  class Socket {
    var stream: seq<byte>  // what the server sends and RECV has not returned yet
    var failed: bool       // a RECV has returned an error

    constructor (stream: seq<byte>)
      ensures this.stream == stream && !failed
    {
      this.stream := stream;
      failed := false;
    }

    /** Any number of bytes up to max, at least one unless the stream has ended;
        or an error, at any time. */
    method Recv(max: nat) returns (ret: int, got: seq<byte>)
      requires max > 0
      modifies this
      ensures -1 <= ret <= max
      ensures ret == -1 ==> failed
      ensures ret == 0 ==> old(stream) == [] && failed == old(failed)
      ensures ret > 0 ==> failed == old(failed) && |got| == ret && old(stream) == got + stream
      ensures ret <= 0 ==> stream == old(stream)
    {
      got := [];
      if * {
        failed := true;
        return -1, [];
      }
      if stream == [] {
        return 0, [];
      }
      var n: nat :| 0 < n <= max && n <= |stream|;
      ret, got, stream := n, stream[..n], stream[n..];
    }
  }

  /** Searches len characters from start; the character behind them is read too. */
  method FindCrlf(buffer: array<byte>, start: nat, len: nat) returns (cp: Option<nat>)
    requires start + len < buffer.Length && (len > 0 ==> buffer[start + len] == NUL)
    ensures cp == match FirstCrlf(buffer[start..start + len]) case None => None case Some(i) => Some(start + i)
  {
    ghost var s := buffer[start..start + len];
    var p, left := start, len;
    while left > 0
      invariant start <= p == start + len - left
      invariant forall j: nat :: start + j < p ==> !CrlfAt(s, j)
      decreases left
    {
      left := left - 1;
      if buffer[p] == CR {
        p := p + 1;
        if buffer[p] == LF {
          FirstCrlfIs(s, p - 1 - start);
          return Some(p - 1);
        }
      } else {
        p := p + 1;
      }
    }
    cp := None;
  }

  class Server {
    const socket: Socket
    var buffer: array<byte>
    var data: nat
    var bufferIndex: nat
    var inMulti: bool
    var open: bool

    constructor (socket: Socket)
      ensures Valid() && this.socket == socket && fresh(buffer) && !inMulti
      ensures Unread() == socket.stream
    {
      this.socket := socket;
      buffer := new byte[GETLINE_MIN];
      data, bufferIndex, inMulti, open := 0, 0, false, true;
    }

    /** The unread bytes lie in the buffer with a NUL behind them. */
    ghost predicate Valid()
      reads this, buffer
    {
      && open
      && 0 < buffer.Length
      && bufferIndex + data < buffer.Length
      && (data > 0 ==> buffer[bufferIndex + data] == NUL)
    }

    /** What is in the buffer and not yet returned. */
    ghost function Buffered(): seq<byte>
      requires Valid()
      reads this, buffer
    {
      buffer[bufferIndex..bufferIndex + data]
    }

    /** What the server has sent and no call has returned yet. */
    ghost function Unread(): seq<byte>
      requires Valid()
      reads this, buffer, socket
    {
      Buffered() + socket.stream
    }

    /** pop_trash: gives up the connection. */
    method Trash()
      modifies this`open
      ensures !open
    {
      open := false;
    }

    /** Takes the line that ends at cp out of the buffer. */
    method TakeLine(cp: nat) returns (ret: int, line: seq<byte>)
      requires Valid() && bufferIndex <= cp && cp + 2 <= bufferIndex + data
      modifies this`data, this`bufferIndex, buffer
      ensures Valid() && ret == |line| == cp - old(bufferIndex)
      ensures line == old(Buffered())[..ret] && Buffered() == old(Buffered())[ret + 2..]
    {
      ghost var all := Buffered();
      var found := bufferIndex;
      var dataUsed := cp + 2 - found;
      buffer[cp] := NUL;
      data := data - dataUsed;
      bufferIndex := bufferIndex + dataUsed;
      line := buffer[found..cp];
      ret := dataUsed - 2;
      assert forall k :: 0 <= k < |line| ==> line[k] == all[k];
      assert line == all[..|line|];
      assert Buffered() == all[ret + 2..];
    }

    /** Moves the unread bytes to the front of the buffer.  The NUL behind them
        stays where it was. */
    method MoveDown()
      requires Valid()
      modifies this`bufferIndex, buffer
      ensures bufferIndex == 0 && buffer[..data] == old(Buffered())
    {
      ghost var unread := Buffered();
      var from := bufferIndex;
      for k := 0 to data
        modifies buffer
        invariant forall j :: 0 <= j < k ==> buffer[j] == unread[j]
        invariant forall j :: k <= j < data ==> buffer[from + j] == unread[j]
      {
        buffer[k] := buffer[from + k];
      }
      assert buffer[..data] == unread;
      bufferIndex := 0;
    }

    /** Makes room for more data, and for the NUL. */
    method Grow()
      requires data < buffer.Length
      modifies this`buffer
      ensures data + 1 < buffer.Length && (buffer == old(buffer) || fresh(buffer))
      ensures buffer[..data] == old(buffer[..data])
    {
      if data == buffer.Length - 1 {
        var bigger := new byte[buffer.Length + GETLINE_INCR];
        forall k | 0 <= k < buffer.Length {
          bigger[k] := buffer[k];
        }
        buffer := bigger;
      }
    }

    /** Adds received bytes behind the data, and the NUL. */
    method Append(got: seq<byte>)
      requires bufferIndex == 0 && data + |got| < buffer.Length
      modifies this`data, buffer
      ensures data == old(data) + |got| && buffer[data] == NUL
      ensures buffer[..data] == old(buffer[..data]) + got
    {
      forall k | 0 <= k < |got| {
        buffer[data + k] := got[k];
      }
      data := data + |got|;
      buffer[data] := NUL;
    }

    /** Receives some more of the stream into the buffer. */
    method Receive() returns (ret: int)
      requires open && bufferIndex == 0 && data < buffer.Length
      modifies this`data, this`buffer, buffer, socket
      ensures data < buffer.Length && (fresh(buffer) || buffer == old(buffer))
      ensures buffer[..data] + socket.stream == old(buffer[..data] + socket.stream)
      ensures ret > 0 ==> buffer[data] == NUL && data == old(data) + ret && |socket.stream| < old(|socket.stream|)
      ensures ret > 0 ==> old(buffer[..data]) <= buffer[..data]
      ensures ret == 0 ==> socket.stream == [] && data == old(data)
      ensures ret < 0 ==> socket.failed
      ensures ret >= 0 ==> socket.failed == old(socket.failed)
    {
      Grow();
      var got;
      ret, got := socket.Recv(buffer.Length - data - 1);
      if ret > 0 {
        ghost var before := buffer[..data];
        Append(got);
        assert before + (got + socket.stream) == buffer[..data] + socket.stream;
      }
    }

    /** Where the first CRLF in the buffer is, searching from offset. */
    method Search(offset: nat) returns (cp: Option<nat>)
      requires Valid() && (data > 0 ==> offset < data) && (data == 0 ==> offset == 0)
      requires FirstCrlf(Buffered()[..if data == 0 then 0 else offset + 1]) == None
      ensures match cp
              case None => FirstCrlf(Buffered()) == None
              case Some(c) => bufferIndex <= c && FirstCrlf(Buffered()) == Some(c - bufferIndex)
    {
      hide FirstCrlf;
      ghost var all := Buffered();
      cp := FindCrlf(buffer, bufferIndex + offset, data - offset);
      assert all[offset..] == buffer[bufferIndex + offset..bufferIndex + data];
      SearchedBefore(all[..if data == 0 then 0 else offset + 1], all, offset);
    }

    /** Takes a line out of the buffer if there is one, searching from offset. */
    method TryLine(offset: nat) returns (found: bool, ret: int, line: seq<byte>)
      requires Valid() && (data > 0 ==> offset < data) && (data == 0 ==> offset == 0)
      requires FirstCrlf(Buffered()[..if data == 0 then 0 else offset + 1]) == None
      modifies this`data, this`bufferIndex, buffer
      ensures Valid()
      ensures found ==>
        && FirstCrlf(old(Unread())) == Some(|line|)
        && ret == |line| && line == old(Unread())[..ret] && Unread() == old(Unread())[ret + 2..]
      ensures !found ==>
        && FirstCrlf(Buffered()) == None && data == old(data)
        && bufferIndex == old(bufferIndex) && buffer[..] == old(buffer[..])
    {
      hide FirstCrlf;
      ghost var all := Buffered();
      var cp := Search(offset);
      if cp.None? {
        return false, 0, [];
      }
      CrlfInFront(all, socket.stream);
      ret, line := TakeLine(cp.value);
      FrontPart(all, socket.stream, ret);
      FrontPart(all, socket.stream, ret + 2);
      found := true;
    }

    /** The part of pop_getline that asks for no more data: takes a line that is in
        the buffer already, or moves what is there to the front. */
    method BufferedLine() returns (found: bool, ret: int, line: seq<byte>)
      requires Valid()
      modifies this`data, this`bufferIndex, buffer
      ensures found ==>
        && Valid() && FirstCrlf(old(Unread())) == Some(|line|)
        && ret == |line| && line == old(Unread())[..ret] && Unread() == old(Unread())[ret + 2..]
      ensures !found ==>
        && bufferIndex == 0 && data == old(data) && data < buffer.Length
        && buffer[..data] == old(Buffered()) && FirstCrlf(buffer[..data]) == None
    {
      hide FirstCrlf;
      found, ret, line := false, 0, [];
      if data != 0 {
        NoCrlfInOne(Buffered()[..1]);
        found, ret, line := TryLine(0);
        if !found {
          MoveDown();
        }
      } else {
        bufferIndex := 0;
        NoCrlfInOne(buffer[..data]);
      }
    }

    /** The buffer holds the front of the stream and no CRLF, and none of its
        characters before offset needs to be looked at again. */
    ghost predicate Searched(offset: nat)
      reads this, buffer
    {
      && open && bufferIndex == 0 && data < buffer.Length
      && (if data > 0 then offset < data else offset == 0)
      && FirstCrlf(buffer[..data]) == None
    }

    /** One turn of the loop in pop_getline. */
    method ReceiveLine(offset: nat) returns (count: int, found: bool, ret: int, line: seq<byte>)
      requires Searched(offset)
      modifies this`data, this`bufferIndex, this`buffer, buffer, socket
      ensures fresh(buffer) || buffer == old(buffer)
      ensures open && (count >= 0 ==> socket.failed == old(socket.failed))
      ensures count < 0 ==> socket.failed
      ensures count == 0 ==> FirstCrlf(old(buffer[..data] + socket.stream)) == None
      ensures count > 0 && found ==>
        && Valid() && FirstCrlf(old(buffer[..data] + socket.stream)) == Some(|line|)
        && ret == |line| && line == old(buffer[..data] + socket.stream)[..ret]
        && Unread() == old(buffer[..data] + socket.stream)[ret + 2..]
      ensures count > 0 && !found ==>
        && Searched(offset + count - 1) && |socket.stream| < old(|socket.stream|)
        && buffer[..data] + socket.stream == old(buffer[..data] + socket.stream)
    {
      hide FirstCrlf;
      found, ret, line := false, -1, [];
      ghost var before := buffer[..data];
      count := Receive();
      if count > 0 {
        ghost var now := buffer[..data];
        NoCrlfInPrefix(before, now, offset + 1);
        found, ret, line := TryLine(offset);
        assert !found ==> buffer[..data] == now;
      } else {
        assert before + [] == before;
      }
    }

    /** pop_getline: the next line of the stream, however it arrives.  It fails
        only if a read fails or the stream ends before another CRLF. */
    method Getline() returns (ret: int, line: seq<byte>)
      requires Valid()
      modifies this`data, this`bufferIndex, this`buffer, this`open, buffer, socket
      ensures fresh(buffer) || buffer == old(buffer)
      ensures ret >= 0 ==>
        && Valid() && socket.failed == old(socket.failed)
        && FirstCrlf(old(Unread())) == Some(|line|)
        && ret == |line| && line == old(Unread())[..ret] && Unread() == old(Unread())[ret + 2..]
      ensures ret < 0 ==> !open && (socket.failed || FirstCrlf(old(Unread())) == None)
    {
      hide FirstCrlf;
      ghost var unread := Unread();
      var found;
      found, ret, line := BufferedLine();
      if found {
        return;
      }
      // the last character may be the CR of a CRLF
      var searchOffset: nat := if data != 0 then data - 1 else 0;
      while true
        invariant Searched(searchOffset) && (fresh(buffer) || buffer == old(buffer))
        invariant buffer[..data] + socket.stream == unread && socket.failed == old(socket.failed)
        decreases |socket.stream|
      {
        var count;
        count, found, ret, line := ReceiveLine(searchOffset);
        if count <= 0 {
          Trash();
          return -1, [];
        }
        if found {
          return;
        }
        searchOffset := searchOffset + count - 1;
      }
    }

    /** pop_multi_first, the command having been sent: reads the first line of the
        response. */
    method MultiFirst() returns (ret: int)
      requires Valid()
      modifies this`data, this`bufferIndex, this`buffer, this`open, this`inMulti, buffer, socket
      ensures fresh(buffer) || buffer == old(buffer)
      ensures ret == 0 ==>
        && !old(inMulti) && inMulti && Valid() && socket.failed == old(socket.failed)
        && var i := FirstCrlf(old(Unread()));
           i.Some? && [43, 79, 75] <= old(Unread())[..i.value] && Unread() == old(Unread())[i.value + 2..]
      ensures ret != 0 ==> ret == -1 && inMulti == old(inMulti)
      ensures ret != 0 ==>
        || old(inMulti) || socket.failed
        || match FirstCrlf(old(Unread())) case None => true case Some(i) => !([43, 79, 75] <= old(Unread())[..i])
    {
      if inMulti {
        return -1;
      }
      var response;
      ret, response := Getline();
      if ret < 0 {
        return -1;
      }
      OkIs();
      if OK <= response {  // a response that starts with -ERR does not
        inMulti := true;
        return 0;
      }
      ret := -1;
    }

    /** pop_multi_next: the next line of a multi-line response, None at its end. */
    method MultiNext() returns (ret: int, line: Option<seq<byte>>)
      requires Valid()
      modifies this`data, this`bufferIndex, this`buffer, this`open, this`inMulti, buffer, socket
      ensures fresh(buffer) || buffer == old(buffer)
      ensures ret >= 0 ==>
        && old(inMulti) && Valid() && socket.failed == old(socket.failed)
        && inMulti == line.Some?
        && ret == (if line.Some? then |line.value| else 0)
        && var i := FirstCrlf(old(Unread()));
           i.Some? && line == Unstuff(old(Unread())[..i.value]) && Unread() == old(Unread())[i.value + 2..]
      ensures ret < 0 ==> !old(inMulti) || socket.failed || FirstCrlf(old(Unread())) == None
    {
      line := None;
      if !inMulti {
        return -1, None;
      }
      var fromserver;
      ret, fromserver := Getline();
      if ret < 0 {
        return -1, None;
      }
      if fromserver != [] && fromserver[0] == DOT {
        if |fromserver| == 1 || fromserver[1] == NUL {
          inMulti := false;
          return 0, None;
        }
        return ret - 1, Some(fromserver[1..]);
      }
      line := Some(fromserver);
    }
  }

  const OK: seq<byte> := Codes("+OK")

  /** Text in memory of a given size that is filled from the front. */
  method PutAll(ptr: array<byte>, cp: nat, s: seq<byte>)
    requires cp + |s| <= ptr.Length
    modifies ptr
    ensures ptr[..cp + |s|] == old(ptr[..cp]) + s
  {
    forall k | 0 <= k < |s| {
      ptr[cp + k] := s[k];
    }
  }

  method Realloc(ptr: array<byte>, size: nat) returns (bigger: array<byte>)
    requires ptr.Length <= size
    ensures fresh(bigger) && bigger.Length == size && bigger[..ptr.Length] == ptr[..]
  {
    bigger := new byte[size];
    forall k | 0 <= k < ptr.Length {
      bigger[k] := ptr[k];
    }
  }

  /** Room for the quotes: five to start with, five more at every fifth. */
  function QuoteRoom(markfrom: bool, fromLines: nat): nat {
    if markfrom then 5 + fromLines / 5 * 5 else 0
  }

  /** The memory there is once these lines have been added. */
  function Room(lines: seq<seq<byte>>, size: nat, markfrom: bool): nat {
    size + QuoteRoom(markfrom, FromLines(lines))
  }

  /** The first k lines lie inside the memory there is by then. */
  ghost predicate LinesFit(lines: seq<seq<byte>>, k: nat, size: nat, markfrom: bool)
    requires k <= |lines|
  {
    |Assembled(lines[..k], markfrom)| <= Room(lines[..k], size, markfrom)
  }

  /** Nothing is ever written outside the memory: neither a line nor the final NUL. */
  ghost predicate Fits(r: Response, size: nat, markfrom: bool) {
    && (forall k :: 0 <= k <= |r.lines| ==> LinesFit(r.lines, k, size, markfrom))
    && (r.complete ==> |Assembled(r.lines, markfrom)| < Room(r.lines, size, markfrom))
  }

  /** The text so far leaves room for another character. */
  lemma {:induction false} RoomToSpare(lines: seq<seq<byte>>, k: nat, markfrom: bool, size: nat)
    requires 0 < k <= |lines| && Octets(lines) <= size
    ensures |Assembled(lines[..k], markfrom)| < Room(lines[..k], size, markfrom)
  {
    OctetsOfPrefix(lines, k);
    AssembledLength(lines[..k], markfrom);
  }

  /** A size that is not too small is enough, unless it is 0 and there is no room
      for quotes: then the NUL has none either. */
  lemma {:induction false} SizeIsEnough(r: Response, size: nat, markfrom: bool)
    requires Octets(r.lines) <= size
    ensures Fits(r, size, markfrom) <==> size > 0 || markfrom || !r.complete
  {
    hide Octets;
    forall k | 0 <= k <= |r.lines| ensures LinesFit(r.lines, k, size, markfrom) {
      if k == 0 {
        NothingYet(r.lines, markfrom);
      } else {
        RoomToSpare(r.lines, k, markfrom, size);
      }
    }
    if r.lines == [] {
      NothingYet(r.lines, markfrom);
    } else {
      RoomToSpare(r.lines, |r.lines|, markfrom, size);
      LineTakesRoom(r.lines);
    }
    assert r.lines[..|r.lines|] == r.lines;
  }

  lemma LineTakesRoom(lines: seq<seq<byte>>)
    requires lines != []
    ensures Octets(lines) > 0
  {
  }

  lemma NothingYet(lines: seq<seq<byte>>, markfrom: bool)
    ensures Assembled(lines[..0], markfrom) == [] && FromLines(lines[..0]) == 0
  {
  }

  lemma ResponseStep(s: seq<byte>)
    ensures match FirstCrlf(s)
            case None => ReadResponse(s) == Response([], false, s)
            case Some(i) =>
              match Unstuff(s[..i])
              case None => ReadResponse(s) == Response([], true, s[i + 2..])
              case Some(line) =>
                var r := ReadResponse(s[i + 2..]);
                ReadResponse(s) == r.(lines := [line] + r.lines)
  {
  }

  lemma AssembledStep(lines: seq<seq<byte>>, k: nat, markfrom: bool)
    requires k < |lines|
    ensures Assembled(lines[..k + 1], markfrom) == Assembled(lines[..k], markfrom) + LineText(lines[k], markfrom)
    ensures FromLines(lines[..k + 1]) == FromLines(lines[..k]) + if IsFrom(lines[k]) then 1 else 0
  {
    assert lines[..k + 1][..k] == lines[..k];
  }

  /** The response on the stream, if its first line says that all is well. */
  ghost function AfterOk(s: seq<byte>): Option<Response> {
    match FirstCrlf(s)
    case None => None
    case Some(i) => if OK <= s[..i] then Some(ReadResponse(s[i + 2..])) else None
  }

  lemma OkIs()
    ensures OK == [43, 79, 75]
  {
    assert Codes("+OK") == ['+' as int, 'O' as int, 'K' as int];
  }

  /** An answer that starts with "+OK" is followed by the response, one that starts
      with "-ERR" is not. */
  lemma AnswersAreTold(answer: seq<byte>, s: seq<byte>)
    requires IsLine(answer)
    ensures [43, 79, 75] <= answer ==> AfterOk(answer + [13, 10] + s) == Some(ReadResponse(s))
    ensures [45, 69, 82, 82] <= answer ==> AfterOk(answer + [13, 10] + s) == None
    ensures FirstCrlf(s) == None ==> AfterOk(s) == None
  {
    hide FirstCrlf, ReadResponse;
    OkIs();
    LineEndsAt(answer, s);
    var t := answer + [13, 10] + s;
    assert t[..|answer|] == answer && t[|answer| + 2..] == s;
    assert OK <= answer ==> answer[0] == 43;
  }

  /** A message that the server holds as lines arrives as those lines.  The memory
      taken for its true size is enough unless the message has no line at all and
      From lines are not to be quoted; any larger size is enough for all messages. */
  lemma {:induction false} MessageArrives(ok: seq<byte>, lines: seq<seq<byte>>, rest: seq<byte>, markfrom: bool)
    requires [43, 79, 75] <= ok && IsLine(ok) && forall k :: 0 <= k < |lines| ==> IsLine(lines[k])
    ensures AfterOk(ok + [13, 10] + (Wire(lines) + rest)) == Some(Response(lines, true, rest))
    ensures Fits(Response(lines, true, rest), Octets(lines), markfrom) <==> lines != [] || markfrom
    ensures forall size :: size > Octets(lines) ==> Fits(Response(lines, true, rest), size, markfrom)
  {
    hide FirstCrlf, Fits, Octets;
    OkIs();
    var t := Wire(lines) + rest;
    LineEndsAt(ok, t);
    var s := ok + [CR, LF] + t;
    assert s[..|ok|] == ok && s[|ok| + 2..] == t;
    ReadInvertsWire(lines, rest);
    var r := Response(lines, true, rest);
    SizeIsEnough(r, Octets(lines), markfrom);
    forall size | size > Octets(lines) ensures Fits(r, size, markfrom) {
      SizeIsEnough(r, size, markfrom);
    }
    if lines == [] {
      NoOctets();
    } else {
      LineTakesRoom(lines);
    }
  }

  lemma NoOctets()
    ensures Octets([]) == 0
  {
  }

  /** pop_retrieve from the point where LIST has given the message's size: the
      message text.  What it requires is that the text and the NUL fit. */
  method Retrieve(server: Server, size: nat, markfrom: bool) returns (ret: int, msg: array<byte>)
    requires server.Valid()
    requires var r := AfterOk(server.Unread()); r.Some? ==> Fits(r.value, size, markfrom)
    modifies server, server.buffer, server.socket
    ensures old(server.inMulti) ==> ret == 0 && unchanged(server) && unchanged(server.socket)
    ensures !old(server.inMulti) && ret >= 0 ==>
      && server.Valid() && !server.inMulti && server.socket.failed == old(server.socket.failed)
      && var r := AfterOk(old(server.Unread()));
         && r.Some? && r.value.complete && server.Unread() == r.value.rest
         && ret < msg.Length && msg[..ret] == Assembled(r.value.lines, markfrom) && msg[ret] == NUL
    ensures !old(server.inMulti) && ret < 0 ==>
      server.socket.failed || var r := AfterOk(old(server.Unread())); r.None? || !r.value.complete
  {
    hide FirstCrlf, ReadResponse, Assembled, Fits;
    if server.inMulti {
      msg := new byte[0];
      return 0, msg;
    }
    var first := server.MultiFirst();
    if first != 0 {
      msg := new byte[0];
      return -1, msg;
    }
    ret, msg := Assemble(server, size, markfrom);
  }

  /** The first k lines are assembled at the front of ptr, which has its size and
      room for quotes. */
  ghost predicate AssembledSoFar(ptr: array<byte>, cp: nat, fromcount: nat,
                                 lines: seq<seq<byte>>, k: nat, markfrom: bool, size: nat)
    requires k <= |lines|
    reads ptr
  {
    && cp <= ptr.Length && ptr[..cp] == Assembled(lines[..k], markfrom)
    && ptr.Length == Room(lines[..k], size, markfrom)
    && (markfrom ==> fromcount == FromLines(lines[..k]) % 5)
  }

  /** Writes a line of the message behind the text so far. */
  method PutLine(ptr: array<byte>, cp: nat, text: seq<byte>, quote: bool) returns (cp': nat)
    requires cp + (if quote then 1 else 0) + |text| + 1 <= ptr.Length
    modifies ptr
    ensures cp' <= ptr.Length && ptr[..cp'] == old(ptr[..cp]) + ((if quote then [QUOTE] else []) + text + [LF])
  {
    cp' := cp;
    if quote {
      PutAll(ptr, cp', [QUOTE]);
      cp' := cp' + 1;
    }
    PutAll(ptr, cp', text);
    cp' := cp' + |text|;
    PutAll(ptr, cp', [LF]);
    cp' := cp' + 1;
  }

  /** Adds a line to the message, with a quote if it needs one, and makes more room
      at every fifth quote. */
  method AddLine(ptr: array<byte>, cp: nat, fromcount: nat, text: seq<byte>, markfrom: bool,
                 ghost lines: seq<seq<byte>>, ghost k: nat, ghost size: nat)
      returns (ptr': array<byte>, cp': nat, fromcount': nat)
    requires k < |lines| && lines[k] == text && LinesFit(lines, k + 1, size, markfrom)
    requires AssembledSoFar(ptr, cp, fromcount, lines, k, markfrom, size)
    modifies ptr
    ensures ptr' == ptr || fresh(ptr')
    ensures AssembledSoFar(ptr', cp', fromcount', lines, k + 1, markfrom, size)
    ensures ptr'.Length == ptr.Length + if markfrom && IsFrom(text) && fromcount % 5 == 4 then 5 else 0
  {
    hide Assembled, FromLines, IsFrom;
    AssembledStep(lines, k, markfrom);
    ptr', fromcount' := ptr, fromcount;
    var quote := markfrom && IsFrom(text);
    if quote {
      fromcount' := fromcount' + 1;
      if fromcount' == 5 {
        ptr' := Realloc(ptr', ptr'.Length + 5);
        fromcount' := 0;
        assert ptr'[..cp] == ptr[..cp];
      }
    }
    assert LineText(text, markfrom) == (if quote then [QUOTE] else []) + text + [LF];
    cp' := PutLine(ptr', cp, text, quote);
  }

  /** Takes the memory for a message of the given size. */
  method NewMessage(size: nat, markfrom: bool, ghost lines: seq<seq<byte>>) returns (ptr: array<byte>)
    ensures fresh(ptr) && ptr.Length == size + (if markfrom then 5 else 0)
    ensures AssembledSoFar(ptr, 0, 0, lines, 0, markfrom, size)
  {
    ptr := new byte[size + if markfrom then 5 else 0];
    NothingYet(lines, markfrom);
  }

  /** Ends the message with a NUL. */
  method Terminate(ptr: array<byte>, cp: nat, ghost fromcount: nat,
                   ghost lines: seq<seq<byte>>, markfrom: bool, ghost size: nat)
    requires AssembledSoFar(ptr, cp, fromcount, lines, |lines|, markfrom, size)
    requires |Assembled(lines, markfrom)| < Room(lines, size, markfrom)
    modifies ptr
    ensures cp < ptr.Length && ptr[..cp] == Assembled(lines, markfrom) && ptr[cp] == NUL
  {
    assert lines[..|lines|] == lines;
    ptr[cp] := NUL;
  }

  lemma FitsEverywhere(r: Response, size: nat, markfrom: bool)
    requires Fits(r, size, markfrom)
    ensures forall k :: 0 <= k <= |r.lines| ==> LinesFit(r.lines, k, size, markfrom)
    ensures r.complete ==> |Assembled(r.lines, markfrom)| < Room(r.lines, size, markfrom)
  {
  }

  /** The stream s holds what is left of a response after its first k lines. */
  ghost predicate Remains(s: seq<byte>, all: Response, k: nat) {
    k <= |all.lines| && ReadResponse(s) == Response(all.lines[k..], all.complete, all.rest)
  }

  lemma AllRemains(s: seq<byte>)
    ensures Remains(s, ReadResponse(s), 0)
  {
    hide ReadResponse;
  }

  /** The next of all lines of a response, k of which have been read. */
  method NextOf(server: Server, ghost all: Response, ghost k: nat) returns (ret: int, line: Option<seq<byte>>)
    requires server.Valid() && server.inMulti && Remains(server.Unread(), all, k)
    modifies server`data, server`bufferIndex, server`buffer, server`open, server`inMulti, server.buffer, server.socket
    ensures fresh(server.buffer) || server.buffer == old(server.buffer)
    ensures ret >= 0 ==>
      && server.Valid() && server.inMulti == line.Some? && server.socket.failed == old(server.socket.failed)
      && |server.Unread()| < |old(server.Unread())|
    ensures ret >= 0 && line.None? ==> k == |all.lines| && all.complete && server.Unread() == all.rest
    ensures ret >= 0 && line.Some? ==>
      k < |all.lines| && line.value == all.lines[k] && Remains(server.Unread(), all, k + 1)
    ensures ret < 0 ==> server.socket.failed || !all.complete
  {
    hide FirstCrlf, ReadResponse, Unstuff;
    ResponseStep(server.Unread());
    ret, line := server.MultiNext();
    if ret >= 0 && line.Some? {
      assert all.lines[k..][0] == line.value && all.lines[k..][1..] == all.lines[k + 1..];
    }
  }

  /** The loop of pop_retrieve. */
  method Assemble(server: Server, size: nat, markfrom: bool) returns (ret: int, ptr: array<byte>)
    requires server.Valid() && server.inMulti
    requires Fits(ReadResponse(server.Unread()), size, markfrom)
    modifies server`data, server`bufferIndex, server`buffer, server`open, server`inMulti, server.buffer, server.socket
    ensures fresh(ptr) && (fresh(server.buffer) || server.buffer == old(server.buffer))
    ensures ret >= 0 ==>
      && server.Valid() && !server.inMulti && server.socket.failed == old(server.socket.failed)
      && var r := ReadResponse(old(server.Unread()));
         && r.complete && server.Unread() == r.rest
         && ret < ptr.Length && ptr[..ret] == Assembled(r.lines, markfrom) && ptr[ret] == NUL
    ensures ret < 0 ==> server.socket.failed || !ReadResponse(old(server.Unread())).complete
  {
    hide FirstCrlf, ReadResponse, Unstuff, Assembled, AssembledSoFar, Fits, Remains;
    FitsEverywhere(ReadResponse(server.Unread()), size, markfrom);
    ghost var all := ReadResponse(server.Unread());
    AllRemains(server.Unread());
    ghost var k: nat := 0;
    ptr := NewMessage(size, markfrom, all.lines);
    var cp: nat, fromcount: nat := 0, 0;
    while true
      invariant server.Valid() && server.inMulti && server.socket.failed == old(server.socket.failed)
      invariant fresh(server.buffer) || server.buffer == old(server.buffer)
      invariant fresh(ptr) && ptr != server.buffer
      invariant k <= |all.lines| && Remains(server.Unread(), all, k)
      invariant AssembledSoFar(ptr, cp, fromcount, all.lines, k, markfrom, size)
      decreases |server.Unread()|
    {
      var line;
      ret, line := NextOf(server, all, k);
      if ret < 0 {
        return -1, ptr;
      }
      if line.None? {
        Terminate(ptr, cp, fromcount, all.lines, markfrom, size);
        return cp, ptr;
      }
      ptr, cp, fromcount := AddLine(ptr, cp, fromcount, line.value, markfrom, all.lines, k, size);
      k := k + 1;
    }
  }

  /** Successive calls of pop_getline return the CRLF-separated lines of the
      stream, however it is cut into reads, until the first failure. */
  method ReadLines(server: Server) returns (lines: seq<seq<byte>>)
    requires server.Valid()
    modifies server`data, server`bufferIndex, server`buffer, server`open, server.buffer, server.socket
    ensures lines <= CrlfLines(old(server.Unread())).0
    ensures !server.socket.failed ==> lines == CrlfLines(old(server.Unread())).0
  {
    hide FirstCrlf, CrlfLines;
    ghost var all := CrlfLines(server.Unread()).0;
    lines := [];
    while true
      invariant server.Valid() && (fresh(server.buffer) || server.buffer == old(server.buffer))
      invariant all == lines + CrlfLines(server.Unread()).0
      decreases |server.Unread()|
    {
      LinesUnfold(server.Unread());
      ghost var before := lines;
      var ret, line := server.Getline();
      if ret < 0 {
        return;
      }
      lines := lines + [line];
      assert before + ([line] + CrlfLines(server.Unread()).0) == lines + CrlfLines(server.Unread()).0;
    }
  }

  lemma LinesUnfold(s: seq<byte>)
    ensures match FirstCrlf(s)
            case None => CrlfLines(s).0 == []
            case Some(i) => CrlfLines(s).0 == [s[..i]] + CrlfLines(s[i + 2..]).0
  {
  }

  lemma FrontPart(front: seq<byte>, back: seq<byte>, n: nat)
    requires n <= |front|
    ensures (front + back)[..n] == front[..n] && (front + back)[n..] == front[n..] + back
  {
  }

  lemma NoCrlfInOne(s: seq<byte>)
    requires |s| <= 1
    ensures FirstCrlf(s) == None
  {
  }

  lemma NoCrlfInPrefix(before: seq<byte>, now: seq<byte>, n: nat)
    requires before <= now && FirstCrlf(before) == None && n <= |now| && (n <= |before| || n <= 1)
    ensures FirstCrlf(now[..n]) == None
  {
    forall i: nat ensures !CrlfAt(now[..n], i) {
      assert n > 1 ==> !CrlfAt(before, i);
    }
  }

  /** The first CRLF of a stream is the first CRLF of a beginning that has one. */
  lemma CrlfInFront(front: seq<byte>, back: seq<byte>)
    requires FirstCrlf(front).Some?
    ensures FirstCrlf(front + back) == FirstCrlf(front)
  {
    var i := FirstCrlf(front).value;
    forall j: nat | j < i ensures !CrlfAt(front + back, j) {
      assert !CrlfAt(front, j);
    }
    FirstCrlfIs(front + back, i);
  }

  /** With no CRLF in what was there before, the search may start at its last
      character or anywhere further back. */
  lemma SearchedBefore(before: seq<byte>, now: seq<byte>, offset: nat)
    requires before <= now && FirstCrlf(before) == None
    requires offset <= |before| && (|before| > 0 ==> offset < |before|)
    ensures match FirstCrlf(now[offset..])
            case None => FirstCrlf(now) == None case Some(i) => FirstCrlf(now) == Some(offset + i)
  {
    hide FirstCrlf, CrlfAt;
    var tail := now[offset..];
    forall j: nat ensures j < offset ==> !CrlfAt(now, j) {
      if j < offset {
        CrlfInPrefix(before, now, j);
      }
    }
    if FirstCrlf(tail).Some? {
      var i := FirstCrlf(tail).value;
      forall j: nat ensures j < offset + i ==> !CrlfAt(now, j) {
        if offset <= j < offset + i {
          CrlfInSuffix(now, offset, j);
          assert !CrlfAt(tail, j - offset);
        }
      }
      CrlfInSuffix(now, offset, offset + i);
      FirstCrlfIs(now, offset + i);
    } else {
      forall j: nat ensures !CrlfAt(now, j) {
        if j >= offset {
          CrlfInSuffix(now, offset, j);
          assert !CrlfAt(tail, j - offset);
        }
      }
    }
  }

  lemma CrlfInPrefix(before: seq<byte>, now: seq<byte>, j: nat)
    requires before <= now && j + 1 < |before|
    ensures CrlfAt(now, j) == CrlfAt(before, j)
  {
  }

  lemma CrlfInSuffix(now: seq<byte>, offset: nat, j: nat)
    requires offset <= j && offset <= |now|
    ensures CrlfAt(now[offset..], j - offset) == CrlfAt(now, j)
  {
  }
}
