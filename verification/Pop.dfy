/**
 * The reading side of lib-src/pop.c: the growable line buffer, multi-line responses, and
 * the retrieval of a message.  A read delivers any non-empty part of what is asked for, and may fail.
 */
module Pop {
  import opened Bytes
  import opened Options
  import opened PopSpec

  const GETLINE_MIN := 1024
  const GETLINE_INCR := 1024

  /** The reasons `pop_error` is set to. */
  datatype PopError = NoError | ReadError | UnexpectedEof | SendError | ServerError | UnexpectedResponse | NotInMulti | AlreadyInMulti

  /** The connection: what the server will still send. */
  class Socket {
    var incoming: seq<byte>

    constructor (incoming: seq<byte>)
      ensures this.incoming == incoming
    {
      this.incoming := incoming;
    }

    /** `RECV`: some of the next bytes, at most `max`; 0 at the end; negative on an error. */
    method Recv(max: nat) returns (ret: int, chunk: seq<byte>)
      requires max >= 1
      modifies this
      ensures ret < 0 ==> incoming == old(incoming)
      ensures ret >= 0 ==> ret == |chunk| <= max && old(incoming) == chunk + incoming
      ensures ret == 0 ==> old(incoming) == []
    {
      if * {
        return -1, [];
      }
      if incoming == [] {
        return 0, [];
      }
      var n: nat :| 1 <= n <= max && n <= |incoming|;
      ret, chunk := n, incoming[..n];
      incoming := incoming[n..];
    }
  }

  /**
   * `find_crlf`: the first CR LF among the `len` bytes at `start`, or -1.  It looks at the byte
   * behind them when the last of them is a CR, so that byte must not be an LF.
   */
  method FindCrlf(buffer: array<byte>, start: nat, len: nat) returns (r: int)
    requires start + len < buffer.Length && buffer[start + len] == NUL
    ensures r == -1 || start <= r
    ensures FirstCrlf(buffer[start..start + len]) == if r < 0 then -1 else r - start
  {
    ghost var s := buffer[start..start + len];
    var left, at := len, start;
    while left > 0
      invariant 0 <= left <= len && at == start + (len - left)
      invariant forall k :: 0 <= k < at - start ==> !CrlfAt(s, k)
    {
      left := left - 1;
      if buffer[at] == CR {
        at := at + 1;
        if buffer[at] == LF {
          FirstCrlfIs(s, at - 1 - start);
          return at - 1;
        }
      } else {
        at := at + 1;
      }
    }
    FirstCrlfIs(s, -1);
    return -1;
  }

  /** A search that starts behind places known to hold no CR LF finds the first one of all. */
  lemma SearchOffset(s: seq<byte>, offset: nat)
    requires offset <= |s| && forall k :: 0 <= k < offset ==> !CrlfAt(s, k)
    ensures FirstCrlf(s) == var i := FirstCrlf(s[offset..]); if i < 0 then -1 else offset + i
  {
    hide FirstCrlf;
    var i := FirstCrlf(s[offset..]);
    assert forall k :: offset <= k ==> (CrlfAt(s, k) <==> CrlfAt(s[offset..], k - offset));
    FirstCrlfIs(s, if i < 0 then -1 else offset + i);
  }

  /** More bytes do not change a CR LF found, and can only complete one at the last place. */
  lemma MoreBytes(s: seq<byte>, more: seq<byte>)
    ensures FirstCrlf(s) >= 0 ==> FirstCrlf(s + more) == FirstCrlf(s)
    ensures FirstCrlf(s) < 0 ==> forall k :: 0 <= k < |s| - 1 ==> !CrlfAt(s + more, k)
    ensures FirstCrlf(s) < 0 && more == [] ==> FirstCrlf(s + more) < 0
  {
    hide FirstCrlf;
    assert forall k :: 0 <= k < |s| - 1 ==> (CrlfAt(s + more, k) <==> CrlfAt(s, k));
    if FirstCrlf(s) >= 0 {
      FirstCrlfIs(s + more, FirstCrlf(s));
    } else if more == [] {
      assert s + more == s;
    }
  }

  /** `popserver`. */
  class PopServer {
    const socket: Socket
    var open: bool  // the connection has not been trashed
    var data: int
    var buffer: array<byte>
    var bufferSize: int
    var bufferIndex: int
    var inMulti: bool
    var popError: PopError

    constructor (socket: Socket)
      ensures Valid() && this.socket == socket && fresh(buffer) && !inMulti
      ensures Pending() == socket.incoming
    {
      this.socket := socket;
      open, data, bufferIndex, bufferSize, inMulti := true, 0, 0, GETLINE_MIN, false;
      buffer := new byte[GETLINE_MIN];
      popError := NoError;
      new;
      assert buffer[0..0] + socket.incoming == socket.incoming;
    }

    /** Between calls the buffered bytes have room for a NUL behind them, and have it there. */
    ghost predicate Valid()
      reads `open, `buffer, `bufferSize, `bufferIndex, `data, buffer
    {
      && open
      && buffer.Length == bufferSize
      && 0 <= data && 0 <= bufferIndex && bufferIndex + data < bufferSize
      && (data > 0 ==> buffer[bufferIndex + data] == NUL)
    }

    /** All that is still to be delivered: the buffered bytes, then those to be read. */
    ghost function Pending(): (p: seq<byte>)
      requires Valid()
      reads `open, `buffer, `bufferSize, `bufferIndex, `data, buffer, socket
    {
      buffer[bufferIndex..bufferIndex + data] + socket.incoming
    }

    /** What a call that returned `ret` and `line` has made of the bytes `p` that were pending. */
    ghost predicate GotLine(ret: int, line: int, p: seq<byte>)
      reads this, buffer, socket
    {
      var i := FirstCrlf(p);
      if ret < 0 then
        && ret == -1 && !open
        && (popError == ReadError || (popError == UnexpectedEof && i < 0))
      else
        && Valid() && i >= 0 && ret == i
        && 0 <= line && line + ret < bufferSize
        && buffer[line..line + ret] == p[..i] && buffer[line + ret] == NUL
        && buffer[bufferIndex + data] == NUL
        && Pending() == p[i + 2..]
    }

    /** `pop_trash`; what it sends to the server is not modelled. */
    method Trash()
      modifies this
      ensures !open && popError == old(popError) && buffer == old(buffer) && inMulti == old(inMulti)
    {
      open := false;
    }

    /** Makes room for at least one more byte and the NUL. */
    method Grow()
      requires open && buffer.Length == bufferSize && bufferSize >= 1 && 0 <= data < bufferSize && bufferIndex == 0
      modifies this
      ensures open && bufferIndex == 0 && data == old(data) && inMulti == old(inMulti) && popError == old(popError)
      ensures buffer.Length == bufferSize == old(bufferSize) + GETLINE_INCR
      ensures fresh(buffer) && buffer[..data] == old(buffer[..data])
    {
      var bigger := new byte[bufferSize + GETLINE_INCR];
      forall k | 0 <= k < bufferSize {
        bigger[k] := buffer[k];
      }
      bufferSize := bufferSize + GETLINE_INCR;
      buffer := bigger;
    }

    /** Delivers the line that starts at `found` and ends before the CR LF at `cp`, and consumes both. */
    method TakeLine(found: int, cp: int) returns (ret: int, line: int)
      requires open && buffer.Length == bufferSize && 0 <= found && 0 <= data && found + data < bufferSize
      requires buffer[found + data] == NUL
      requires found <= cp && FirstCrlf(buffer[found..found + data]) == cp - found
      modifies `data, `bufferIndex, buffer
      ensures GotLine(ret, line, old(buffer[found..found + data] + socket.incoming))
    {
      hide FirstCrlf;
      ghost var s := buffer[found..found + data];
      ghost var p := s + socket.incoming;
      MoreBytes(s, socket.incoming);
      var dataUsed := cp + 2 - found;
      buffer[cp] := NUL;
      data := data - dataUsed;
      bufferIndex := found + dataUsed;
      assert p[..cp - found] == s[..cp - found];
      assert buffer[found..cp] == s[..cp - found];
      assert buffer[bufferIndex..bufferIndex + data] == s[dataUsed..];
      assert p[cp - found + 2..] == s[dataUsed..] + socket.incoming;
      return dataUsed - 2, found;
    }

    /** One read of the loop, with room made for it and a NUL put behind what was read. */
    method ReadSome() returns (ret: int)
      requires open && buffer.Length == bufferSize && bufferIndex == 0 && 0 <= data < bufferSize
      modifies this, buffer, socket
      ensures open && buffer.Length == bufferSize && bufferIndex == 0 && 0 <= data < bufferSize
      ensures inMulti == old(inMulti) && popError == old(popError) && (buffer == old(buffer) || fresh(buffer))
      ensures ret <= 0 ==> data == old(data) && buffer[..data] == old(buffer[..data]) && socket.incoming == old(socket.incoming)
      ensures ret == 0 ==> socket.incoming == []
      ensures ret > 0 ==> data == old(data) + ret && buffer[data] == NUL
      ensures ret > 0 ==> buffer[..old(data)] == old(buffer[..data]) && |socket.incoming| < |old(socket.incoming)|
      ensures buffer[..data] + socket.incoming == old(buffer[..data] + socket.incoming)
    {
      ghost var s := buffer[..data];
      if data == bufferSize - 1 {
        Grow();
      }
      var chunk;
      ret, chunk := socket.Recv(bufferSize - data - 1);
      if ret > 0 {
        forall k | 0 <= k < ret {
          buffer[data + k] := chunk[k];
        }
        data := data + ret;
        buffer[data] := NUL;
        assert forall k :: 0 <= k < |s| ==> buffer[k] == s[k];
        assert forall k :: |s| <= k < data ==> buffer[k] == chunk[k - |s|];
        assert buffer[..data] == s + chunk;
        assert (s + chunk) + socket.incoming == s + (chunk + socket.incoming);
      } else if ret == 0 {
        assert chunk == [] && chunk + socket.incoming == socket.incoming;
      }
    }

    /** There is no line to be had: the connection is given up. */
    method GiveUp(error: PopError, ghost p: seq<byte>) returns (ret: int, line: int)
      requires error == ReadError || (error == UnexpectedEof && FirstCrlf(p) < 0)
      modifies this
      ensures GotLine(ret, line, p) && buffer == old(buffer) && inMulti == old(inMulti)
    {
      hide FirstCrlf;
      popError := error;
      Trash();
      return -1, 0;
    }

    /** The loop of `pop_getline`: reads until the buffer holds a CR LF, searching from `offset` on. */
    method ReadLine(offset: int) returns (ret: int, line: int)
      requires open && buffer.Length == bufferSize && bufferIndex == 0 && 0 <= data < bufferSize
      requires offset == (if data > 0 then data - 1 else 0)
      requires FirstCrlf(buffer[..data]) < 0
      modifies this, buffer, socket
      ensures buffer == old(buffer) || fresh(buffer)
      ensures inMulti == old(inMulti)
      ensures GotLine(ret, line, old(buffer[..data] + socket.incoming))
    {
      hide FirstCrlf, GotLine;
      var searchOffset := offset;
      ghost var p := buffer[..data] + socket.incoming;
      while true
        invariant open && buffer.Length == bufferSize && bufferIndex == 0 && 0 <= data < bufferSize
        invariant inMulti == old(inMulti) && (buffer == old(buffer) || fresh(buffer))
        invariant 0 <= searchOffset <= (if data > 0 then data - 1 else 0)
        invariant FirstCrlf(buffer[..data]) < 0
        invariant p == buffer[..data] + socket.incoming
        decreases |socket.incoming|
      {
        ghost var s := buffer[..data];
        ret := ReadSome();
        if ret < 0 {
          ret, line := GiveUp(ReadError, p);
          return;
        } else if ret == 0 {
          MoreBytes(s, []);
          assert p == s + [];
          ret, line := GiveUp(UnexpectedEof, p);
          return;
        }
        ghost var t := buffer[..data];
        assert t == s + t[|s|..];
        MoreBytes(s, t[|s|..]);
        SearchOffset(t, searchOffset);
        assert buffer[searchOffset..data] == t[searchOffset..];
        var cp := FindCrlf(buffer, searchOffset, data - searchOffset);
        if cp >= 0 {
          assert buffer[0..data] == t;
          assert p == buffer[0..data] + socket.incoming;
          ret, line := TakeLine(0, cp);
          return;
        }
        searchOffset := searchOffset + (ret - 1);
      }
    }

    /** `pop_getline`. */
    method GetLine() returns (ret: int, line: int)
      requires Valid()
      modifies this, buffer, socket
      ensures buffer == old(buffer) || fresh(buffer)
      ensures inMulti == old(inMulti)
      ensures GotLine(ret, line, old(Pending()))
    {
      hide FirstCrlf, GotLine;
      var searchOffset := 0;
      ghost var s := buffer[bufferIndex..bufferIndex + data];
      if data > 0 {
        var cp := FindCrlf(buffer, bufferIndex, data);
        if cp >= 0 {
          ret, line := TakeLine(bufferIndex, cp);
          return;
        } else {
          forall k | 0 <= k < data {
            buffer[k] := buffer[bufferIndex + k];
          }
          searchOffset := data - 1;
          bufferIndex := 0;
        }
      } else {
        bufferIndex := 0;
        NoBytes(s);
      }
      assert buffer[..data] == s;
      ret, line := ReadLine(searchOffset);
    }

    /** `sendline`, as far as the reading side can tell: the command goes out or the connection is lost. */
    method SendLine() returns (ret: int)
      requires Valid()
      modifies this
      ensures buffer == old(buffer) && inMulti == old(inMulti) && socket.incoming == old(socket.incoming)
      ensures ret == 0 ==> Valid() && Pending() == old(Pending())
      ensures ret != 0 ==> ret == -1 && !open && popError == SendError
    {
      if * {
        Trash();
        popError := SendError;
        return -1;
      }
      return 0;
    }

    /** `strncmp` of the line at `line`, which a NUL ends, with a word that has none. */
    method StartsWith(line: int, ret: int, word: seq<byte>) returns (b: bool)
      requires Valid() && 0 <= line && 0 <= ret && line + ret < bufferSize && buffer[line + ret] == NUL
      requires NUL !in word
      ensures b <==> word <= buffer[line..line + ret]
    {
      ghost var content := buffer[line..line + ret];
      assert forall k :: 0 <= k < ret ==> content[k] == buffer[line + k];
      var k := 0;
      while k < |word|
        invariant 0 <= k <= |word| && k <= ret
        invariant forall j :: 0 <= j < k ==> content[j] == word[j]
      {
        if buffer[line + k] != word[k] {
          return false;
        }
        k := k + 1;
      }
      return true;
    }

    /** `for (*response += 3; **response == ' '; (*response)++);` on a line that a NUL ends. */
    method SkipSpaces(from: int, end: int) returns (at: int)
      requires Valid() && 0 <= from <= end < bufferSize && buffer[end] == NUL
      ensures from <= at <= end && buffer[at] != SPACE
      ensures forall k :: from <= k < at ==> buffer[k] == SPACE
    {
      at := from;
      while buffer[at] == SPACE
        invariant from <= at <= end
        invariant forall k :: from <= k < at ==> buffer[k] == SPACE
        decreases end - at
      {
        at := at + 1;
      }
    }

    /** The text behind the status and the blanks after it. */
    method SkipBlanks(line: int, len: int) returns (response: int)
      requires Valid() && 0 <= line && 3 <= len && line + len < bufferSize && buffer[line + len] == NUL
      ensures PointsAt(response, WithoutBlanks(buffer[line..line + len][|OK|..]))
    {
      hide WithoutBlanks;
      response := SkipSpaces(line + 3, line + len);
      BlanksPassed(buffer[..], line, len, response);
      assert buffer[..][response..line + len] == buffer[response..line + len];
      assert buffer[..][line..line + len] == buffer[line..line + len];
    }

    /** What `pop_multi_first` makes of the bytes `p` that were pending. */
    ghost predicate Started(ret: int, response: int, p: seq<byte>)
      reads this, buffer, socket
    {
      var i := FirstCrlf(p);
      if ret == 0 then
        && Valid() && inMulti && i >= 0 && OK <= p[..i] && Pending() == p[i + 2..]
        && PointsAt(response, WithoutBlanks(p[..i][|OK|..]))
      else if !open then
        popError == SendError || popError == ReadError || (popError == UnexpectedEof && i < 0)
      else
        && Valid() && !inMulti && i >= 0 && !(OK <= p[..i]) && Pending() == p[i + 2..]
        && popError == if ERR <= p[..i] then ServerError else UnexpectedResponse
    }

    /** The text that lies in the buffer at `at`, with a NUL behind it. */
    ghost predicate PointsAt(at: int, text: seq<byte>)
      requires buffer.Length == bufferSize
      reads `buffer, `bufferSize, buffer
    {
      && 0 <= at && at + |text| < bufferSize
      && buffer[at..at + |text|] == text && buffer[at + |text|] == NUL
    }

    /** Looks at the status of a response line. */
    method Judge(line: int, len: int, ghost content: seq<byte>) returns (ret: int, response: int)
      requires Valid() && !inMulti && PointsAt(line, content) && len == |content|
      modifies `popError, `inMulti
      ensures ret == (if OK <= content then 0 else -1) && inMulti == (OK <= content)
      ensures OK <= content ==> PointsAt(response, WithoutBlanks(content[|OK|..]))
      ensures !(OK <= content) ==> popError == if ERR <= content then ServerError else UnexpectedResponse
    {
      hide WithoutBlanks;
      var refused := StartsWith(line, len, ERR);
      var accepted := StartsWith(line, len, OK);
      OkIsNotErr(content);
      if refused {
        popError := ServerError;
        return -1, line;
      } else if accepted {
        response := SkipBlanks(line, len);
        inMulti := true;
        return 0, response;
      } else {
        popError := UnexpectedResponse;
        return -1, line;
      }
    }

    /** Reads the line that tells whether the command is accepted. */
    method ReadStatus() returns (ret: int, response: int)
      requires Valid() && !inMulti
      modifies this, buffer, socket
      ensures buffer == old(buffer) || fresh(buffer)
      ensures (ret == 0 || ret == -1) && Started(ret, response, old(Pending()))
    {
      hide FirstCrlf, WithoutBlanks;
      ghost var p := Pending();
      var len, line := GetLine();
      if len < 0 {
        return -1, 0;
      }
      ghost var pending := Pending();
      ret, response := Judge(line, len, p[..len]);
      assert Pending() == pending;
    }

    /** `pop_multi_first`. */
    method MultiFirst() returns (ret: int, response: int)
      requires Valid()
      modifies this, buffer, socket
      ensures buffer == old(buffer) || fresh(buffer)
      ensures ret == 0 || ret == -1
      ensures if old(inMulti) then ret == -1 && popError == AlreadyInMulti && Valid() && Pending() == old(Pending())
              else Started(ret, response, old(Pending()))
    {
      hide FirstCrlf, WithoutBlanks, PointsAt;
      response := 0;
      if inMulti {
        popError := AlreadyInMulti;
        return -1, 0;
      }
      ret := SendLine();
      if ret != 0 {
        return -1, 0;
      }
      ret, response := ReadStatus();
    }

    /** What `pop_multi_next` makes of the bytes `p` that were pending. */
    ghost predicate GotNext(ret: int, line: Option<int>, p: seq<byte>)
      reads this, buffer, socket
    {
      var i := FirstCrlf(p);
      if ret < 0 then
        && ret == -1 && !open
        && (popError == ReadError || (popError == UnexpectedEof && i < 0))
      else
        && Valid() && i >= 0 && Pending() == p[i + 2..]
        && (if Terminator(p[..i]) then
              line == None && ret == 0 && !inMulti
            else
              line.Some? && inMulti && ret == |Unstuffed(p[..i])| && PointsAt(line.value, Unstuffed(p[..i])))
    }

    /** Looks at the dots of a line. */
    method TakeDot(len: int, fromserver: int, ghost content: seq<byte>) returns (ret: int, line: Option<int>)
      requires Valid() && inMulti && PointsAt(fromserver, content) && len == |content|
      modifies `inMulti
      ensures inMulti == !Terminator(content)
      ensures Terminator(content) ==> line == None && ret == 0
      ensures !Terminator(content) ==> line.Some? && ret == |Unstuffed(content)| && PointsAt(line.value, Unstuffed(content))
    {
      hide Terminator, Unstuffed;
      Stuffing(buffer[..], fromserver, len);
      assert buffer[..][fromserver..fromserver + len] == content;
      assert len >= 1 ==> buffer[..][fromserver + 1..fromserver + len] == buffer[fromserver + 1..fromserver + len];
      if buffer[fromserver] == DOT {
        if buffer[fromserver + 1] == NUL {
          inMulti := false;
          return 0, None;
        } else {
          return len - 1, Some(fromserver + 1);
        }
      } else {
        return len, Some(fromserver);
      }
    }

    /** `pop_multi_next`. */
    method MultiNext() returns (ret: int, line: Option<int>)
      requires Valid()
      modifies this, buffer, socket
      ensures buffer == old(buffer) || fresh(buffer)
      ensures if !old(inMulti) then ret == -1 && popError == NotInMulti && Valid() && Pending() == old(Pending())
              else GotNext(ret, line, old(Pending()))
    {
      hide FirstCrlf, Terminator, Unstuffed;
      line := None;
      if !inMulti {
        popError := NotInMulti;
        return -1, None;
      }
      ghost var p := Pending();
      var fromserver;
      ret, fromserver := GetLine();
      if ret < 0 {
        return -1, None;
      }
      ghost var pending := Pending();
      ret, line := TakeDot(ret, fromserver, p[..ret]);
      assert Pending() == pending;
    }

    /** Makes room for another '>' when five have been written since the last time, and writes it. */
    method Mark(ptr: array<byte>, cp: nat, fromcount: nat, ghost size: int, ghost froms: nat)
      returns (ptr': array<byte>, cp': nat, fromcount': nat)
      requires cp <= ptr.Length && ptr.Length == Capacity(size, true, froms) && fromcount == froms % 5
      requires cp < Capacity(size, true, froms + 1)
      modifies ptr
      ensures ptr' == ptr || fresh(ptr')
      ensures ptr'.Length == Capacity(size, true, froms + 1) && fromcount' == (froms + 1) % 5
      ensures cp' == cp + 1 <= ptr'.Length && ptr'[..cp'] == old(ptr[..cp]) + [GREATER]
    {
      ghost var s := ptr[..cp];
      ptr', cp', fromcount' := ptr, cp, fromcount;
      fromcount' := fromcount' + 1;
      if fromcount' == 5 {
        ptr' := new byte[ptr.Length + 5];
        forall k | 0 <= k < ptr.Length {
          ptr'[k] := ptr[k];
        }
        fromcount' := 0;
      }
      assert ptr'[..cp'] == s;
      ptr'[cp'] := GREATER;
      cp' := cp' + 1;
    }

    /** `memcpy` of a line into the message, and the LF behind it. */
    method Append(ptr: array<byte>, cp: nat, line: int, len: int) returns (cp': nat)
      requires Valid() && 0 <= len && 0 <= line && line + len < bufferSize
      requires ptr != buffer && cp + len + 1 <= ptr.Length
      modifies ptr
      ensures cp' == cp + len + 1
      ensures ptr[..cp'] == old(ptr[..cp]) + buffer[line..line + len] + [LF]
    {
      ghost var s := ptr[..cp];
      forall k | cp <= k < cp + len {
        ptr[k] := buffer[line + k - cp];
      }
      cp' := cp + len;
      assert ptr[..cp] == s && ptr[cp..cp'] == buffer[line..line + len];
      assert ptr[..cp'] == ptr[..cp] + ptr[cp..cp'];
      ptr[cp'] := LF;
      cp' := cp' + 1;
    }

    /** The state of a retrieval with `k` of the `lines` stored in the message buffer. */
    ghost predicate Gathered(ptr: array<byte>, cp: int, fromcount: int, markfrom: bool, size: int,
                             lines: seq<seq<byte>>, k: int, end: Option<seq<byte>>)
      reads this, buffer, socket, ptr
    {
      && 0 <= k <= |lines| && 0 <= cp <= ptr.Length
      && Valid() && inMulti && ptr != buffer
      && Body(Pending()) == Response(lines[k..], end)
      && ptr[..cp] == Message(lines[..k], markfrom)
      && ptr.Length == Capacity(size, markfrom, Froms(lines[..k], markfrom))
      && fromcount == Froms(lines[..k], markfrom) % 5
    }

    /** The next line is stored, behind a '>' if it has to be marked. */
    method Store(ptr: array<byte>, cp: nat, line: int, len: int, markfrom: bool, fromcount: nat,
                 ghost size: int, ghost lines: seq<seq<byte>>, ghost k: nat)
      returns (ptr': array<byte>, cp': nat, fromcount': nat)
      requires size >= LeastSize(lines, markfrom, false)
      requires k < |lines| && Valid() && 0 <= len && 0 <= line && line + len < bufferSize
      requires buffer[line..line + len] == lines[k] && buffer[line + len] == NUL
      requires ptr != buffer && cp <= ptr.Length && ptr[..cp] == Message(lines[..k], markfrom)
      requires ptr.Length == Capacity(size, markfrom, Froms(lines[..k], markfrom))
      requires fromcount == Froms(lines[..k], markfrom) % 5
      modifies ptr
      ensures (ptr' == ptr || fresh(ptr')) && ptr' != buffer
      ensures cp' <= ptr'.Length && ptr'[..cp'] == Message(lines[..k + 1], markfrom)
      ensures ptr'.Length == Capacity(size, markfrom, Froms(lines[..k + 1], markfrom))
      ensures fromcount' == Froms(lines[..k + 1], markfrom) % 5
    {
      hide Message, Froms, Octets, Capacity, LeastSize;
      ghost var l := lines[k];
      SafeSizes(lines, markfrom, false, size);
      MessageSnoc(lines[..k], l, markfrom);
      assert lines[..k] + [l] == lines[..k + 1];
      ptr', cp', fromcount' := ptr, cp, fromcount;
      var isFrom := StartsWith(line, len, FROM_);
      if markfrom && isFrom {
        ptr', cp', fromcount' := Mark(ptr', cp', fromcount', size, Froms(lines[..k], markfrom));
      }
      ghost var t := ptr'[..cp'];
      cp' := Append(ptr', cp', line, len);
      assert Stored(l, markfrom) == (if MarkedFrom(l, markfrom) then [GREATER] else []) + (l + [LF]);
      assert t + l + [LF] == t + (l + [LF]);
    }

    /** A line that was received is the next one of the message. */
    method KeepLine(ptr: array<byte>, cp: nat, line: int, len: int, markfrom: bool, fromcount: nat,
                    ghost size: int, ghost lines: seq<seq<byte>>, ghost k: nat, ghost end: Option<seq<byte>>)
      returns (ptr': array<byte>, cp': nat, fromcount': nat)
      requires Valid() && inMulti && size >= LeastSize(lines, markfrom, false)
      requires k < |lines| && 0 <= len && 0 <= line && line + len < bufferSize
      requires buffer[line..line + len] == lines[k] && buffer[line + len] == NUL
      requires Body(Pending()) == Response(lines[k + 1..], end)
      requires ptr != buffer && cp <= ptr.Length && ptr[..cp] == Message(lines[..k], markfrom)
      requires ptr.Length == Capacity(size, markfrom, Froms(lines[..k], markfrom))
      requires fromcount == Froms(lines[..k], markfrom) % 5
      modifies ptr
      ensures (ptr' == ptr || fresh(ptr')) && Gathered(ptr', cp', fromcount', markfrom, size, lines, k + 1, end)
    {
      hide Body, Message, Froms, Octets, Capacity, LeastSize;
      ptr', cp', fromcount' := Store(ptr, cp, line, len, markfrom, fromcount, size, lines, k);
    }

    /** `pop_retrieve_next`, in a response of these lines of which `k` have been received. */
    method RetrieveNext(ghost lines: seq<seq<byte>>, ghost k: nat, ghost end: Option<seq<byte>>) returns (ret: int, line: Option<int>)
      requires Valid() && inMulti && k <= |lines| && Body(Pending()) == Response(lines[k..], end)
      modifies this, buffer, socket
      ensures buffer == old(buffer) || fresh(buffer)
      ensures ret < 0 ==> ret == -1 && !open && (popError == ReadError || (popError == UnexpectedEof && end.None?))
      ensures ret >= 0 && line.None? ==> Valid() && !inMulti && k == |lines| && end == Some(Pending())
      ensures ret >= 0 && line.Some? ==>
                && Valid() && inMulti && k < |lines| && ret == |lines[k]| && PointsAt(line.value, lines[k])
                && Body(Pending()) == Response(lines[k + 1..], end)
    {
      hide FirstCrlf, Body, Terminator, Unstuffed, PointsAt;
      BodyStep(Pending(), lines, k, end);
      ret, line := MultiNext();
    }

    /** One turn of the loop of `pop_retrieve`. */
    method RetrieveLine(ptr: array<byte>, cp: nat, fromcount: nat, markfrom: bool, ghost size: int,
                        ghost lines: seq<seq<byte>>, ghost k: nat, ghost end: Option<seq<byte>>)
      returns (ret: int, ended: bool, ptr': array<byte>, cp': nat, fromcount': nat)
      requires Gathered(ptr, cp, fromcount, markfrom, size, lines, k, end)
      requires size >= LeastSize(lines, markfrom, false)
      modifies this, buffer, socket, ptr
      ensures (buffer == old(buffer) || fresh(buffer)) && (ptr' == ptr || fresh(ptr'))
      ensures ret < 0 ==> ret == -1 && !open && (popError == ReadError || (popError == UnexpectedEof && end.None?))
      ensures ret >= 0 && !ended ==> k < |lines| && Gathered(ptr', cp', fromcount', markfrom, size, lines, k + 1, end)
      ensures ret >= 0 && ended ==>
                && k == |lines| && ptr' == ptr && cp' == cp && ptr[..cp] == old(ptr[..cp])
                && Valid() && !inMulti && ptr != buffer && end == Some(Pending())
    {
      hide FirstCrlf, Body, Terminator, Unstuffed, Message, Froms, Octets, Capacity, LeastSize;
      ptr', cp', fromcount', ended := ptr, cp, fromcount, false;
      ghost var s := ptr[..cp];
      var line;
      ret, line := RetrieveNext(lines, k, end);
      assert ptr != buffer && ptr[..cp] == s;
      if ret < 0 {
        return;
      }
      if line.None? {
        ended := true;
        return;
      }
      ptr', cp', fromcount' := KeepLine(ptr, cp, line.value, ret, markfrom, fromcount, size, lines, k, end);
    }

    /** The loop of `pop_retrieve`, on an empty message buffer. */
    method RetrieveLines(buf: array<byte>, markfrom: bool, ghost size: int, ghost lines: seq<seq<byte>>, ghost end: Option<seq<byte>>)
      returns (ret: int, ptr: array<byte>)
      requires Gathered(buf, 0, 0, markfrom, size, lines, 0, end)
      requires size >= LeastSize(lines, markfrom, end.Some?)
      modifies this, buffer, socket, buf
      ensures (buffer == old(buffer) || fresh(buffer)) && (ptr == buf || fresh(ptr))
      ensures ret < 0 ==> ret == -1 && !open && (popError == ReadError || (popError == UnexpectedEof && end.None?))
      ensures ret >= 0 ==>
                && ret == |Message(lines, markfrom)| < ptr.Length
                && ptr[..ret] == Message(lines, markfrom) && ptr[ret] == NUL
                && Valid() && !inMulti && end == Some(Pending())
    {
      hide FirstCrlf, Body, Message, Froms, Octets, Capacity, Demand;
      ptr := buf;
      var cp: nat, fromcount: nat := 0, 0;
      ghost var k := 0;
      var ended := false;
      while !ended
        invariant (ptr == buf || fresh(ptr)) && (buffer == old(buffer) || fresh(buffer)) && 0 <= k <= |lines|
        invariant !ended ==> Gathered(ptr, cp, fromcount, markfrom, size, lines, k, end)
        invariant ended ==> Valid() && !inMulti && ptr != buffer && end == Some(Pending())
        invariant ended ==> k == |lines| && cp < ptr.Length && ptr[..cp] == Message(lines, markfrom)
        decreases !ended, |lines| - k
      {
        WholeMessage(lines, k, markfrom, end.Some?, size);
        ret, ended, ptr, cp, fromcount := RetrieveLine(ptr, cp, fromcount, markfrom, size, lines, k, end);
        if ret < 0 {
          return -1, ptr;
        }
        if !ended {
          k := k + 1;
        }
      }
      ptr[cp] := NUL;
      return cp, ptr;
    }

    /** The part of `pop_retrieve` behind the first line of the response. */
    method Gather(size: int, markfrom: bool, ghost r: Response) returns (ret: int, ptr: array<byte>)
      requires Valid() && inMulti && Body(Pending()) == r
      requires size >= LeastSize(r.lines, markfrom, r.end.Some?)
      modifies this, buffer, socket
      ensures ret < 0 ==> ret == -1 && !open && (popError == ReadError || (popError == UnexpectedEof && r.end.None?))
      ensures ret >= 0 ==>
                && ret == |Message(r.lines, markfrom)| < ptr.Length
                && ptr[..ret] == Message(r.lines, markfrom) && ptr[ret] == NUL
                && Valid() && !inMulti && r.end == Some(Pending())
    {
      hide FirstCrlf, Body, Message, Froms, Octets, Capacity, Demand;
      var bufsize := size + (if markfrom then 5 else 0);
      EmptyMessage(r.lines, markfrom, size);
      SafeSizes(r.lines, markfrom, r.end.Some?, size);
      ptr := new byte[bufsize];
      assert ptr[..0] == [];
      ret, ptr := RetrieveLines(ptr, markfrom, size, r.lines, r.end);
    }

    /** What `pop_retrieve` makes of the bytes `p` that were pending. */
    ghost predicate Retrieved(ret: int, msgBuf: array<byte>, markfrom: bool, p: seq<byte>)
      reads this, buffer, socket, msgBuf
    {
      var i := FirstCrlf(p);
      if i >= 0 && OK <= p[..i] then
        var r := Body(p[i + 2..]);
        if ret >= 0 then
          && ret == |Message(r.lines, markfrom)| < msgBuf.Length
          && msgBuf[..ret] == Message(r.lines, markfrom) && msgBuf[ret] == NUL
          && (NoBreaks(r.lines) ==> MarkedText(msgBuf[..ret], r.lines, markfrom))
          && Valid() && !inMulti && r.end == Some(Pending())
        else
          && ret == -1 && !open
          && (popError == SendError || popError == ReadError || (popError == UnexpectedEof && r.end.None?))
      else
        && ret == -1
        && if open then Valid() && !inMulti && i >= 0 && Pending() == p[i + 2..]
           else popError == SendError || popError == ReadError || (popError == UnexpectedEof && i < 0)
    }

    /** The size is safe for the response that these bytes bring, should they bring one. */
    ghost predicate SafeFor(size: int, markfrom: bool, p: seq<byte>) {
      var i := FirstCrlf(p);
      i >= 0 && OK <= p[..i] ==>
        var r := Body(p[i + 2..]);
        size >= LeastSize(r.lines, markfrom, r.end.Some?)
    }

    /**
     * `pop_retrieve`, with the message size that the server gave in answer to LIST, whatever the server sends.  The
     * size need not be honest, but be at least what the buffer takes; `SafeSizes` says what happens otherwise.
     */
    method Retrieve(size: int, markfrom: bool) returns (ret: int, msgBuf: array<byte>)
      requires Valid() && SafeFor(size, markfrom, Pending())
      modifies this, buffer, socket
      ensures if old(inMulti) then ret == 0 && Valid() && Pending() == old(Pending())
              else Retrieved(ret, msgBuf, markfrom, old(Pending()))
    {
      hide FirstCrlf, Body, Message, Froms, Octets, Capacity, Demand, WithoutBlanks, MarkedText;
      msgBuf := new byte[0];
      if inMulti {
        return 0, msgBuf;
      }
      ghost var p := Pending();
      ghost var r := AfterFirst(p);
      var response;
      ret, response := MultiFirst();
      if ret != 0 {
        return -1, msgBuf;
      }
      ret, msgBuf := Gather(size, markfrom, r);
      if NoBreaks(r.lines) {
        MessageIsMarked(r.lines, markfrom);
      }
    }

    static ghost function AfterFirst(p: seq<byte>): Response {
      var i := FirstCrlf(p);
      if i < 0 then Response([], None) else Body(p[i + 2..])
    }
  }

  lemma CrlfLinesStep(p: seq<byte>)
    ensures FirstCrlf(p) < 0 ==> CrlfLines(p) == []
    ensures FirstCrlf(p) >= 0 ==> CrlfLines(p) == [p[..FirstCrlf(p)]] + CrlfLines(p[FirstCrlf(p) + 2..])
  {
  }

  /**
   * Successive calls of `pop_getline`, until one fails.  However the stream is cut into reads, they
   * return its lines: all of them if the end of the stream was met, the first ones if a read failed.
   */
  method ReadLines(server: PopServer) returns (lines: seq<seq<byte>>)
    requires server.Valid()
    modifies server, server.buffer, server.socket
    ensures !server.open
    ensures lines <= CrlfLines(old(server.Pending()))
    ensures server.popError == UnexpectedEof ==> lines == CrlfLines(old(server.Pending()))
    ensures server.popError == UnexpectedEof || server.popError == ReadError
  {
    hide FirstCrlf, CrlfLines;
    ghost var all := CrlfLines(server.Pending());
    lines := [];
    var ret := 0;
    while ret >= 0
      invariant server.buffer == old(server.buffer) || fresh(server.buffer)
      invariant ret >= 0 ==> server.Valid() && lines + CrlfLines(server.Pending()) == all
      invariant ret < 0 ==> !server.open && lines <= all
      invariant ret < 0 ==> server.popError == ReadError || (server.popError == UnexpectedEof && lines == all)
      decreases if ret >= 0 then |server.Pending()| + 1 else 0
    {
      CrlfLinesStep(server.Pending());
      var line;
      ret, line := server.GetLine();
      if ret >= 0 {
        lines := lines + [server.buffer[line..line + ret]];
      }
    }
  }

  /** What the first two bytes of a received line that a NUL ends tell of it. */
  lemma Stuffing(b: seq<byte>, at: int, len: int)
    requires 0 <= at && 0 <= len && at + len < |b| && b[at + len] == NUL
    ensures b[at] == DOT ==> len >= 1
    ensures Terminator(b[at..at + len]) <==> b[at] == DOT && b[at + 1] == NUL
    ensures Unstuffed(b[at..at + len]) == if b[at] == DOT then b[at + 1..at + len] else b[at..at + len]
  {
  }

  lemma WholeMessage(lines: seq<seq<byte>>, k: nat, markfrom: bool, ended: bool, size: int)
    requires k <= |lines| && size >= LeastSize(lines, markfrom, ended)
    ensures k == |lines| && ended ==>
              lines[..k] == lines
              && |Message(lines, markfrom)| < Capacity(size, markfrom, Froms(lines[..k], markfrom))
  {
    SafeSizes(lines, markfrom, ended, size);
    assert k == |lines| ==> lines[..k] == lines;
  }

  lemma EmptyMessage(lines: seq<seq<byte>>, markfrom: bool, size: int)
    ensures lines[0..] == lines && Message(lines[..0], markfrom) == [] && Froms(lines[..0], markfrom) == 0
    ensures Capacity(size, markfrom, 0) == size + if markfrom then 5 else 0
  {
  }

  /** Where the loop that skips blanks stops, the text without them starts. */
  lemma BlanksPassed(b: seq<byte>, line: int, len: int, at: int)
    requires 0 <= line && 3 <= len && line + 3 <= at <= line + len < |b| && b[at] != SPACE
    requires forall k :: line + 3 <= k < at ==> b[k] == SPACE
    ensures WithoutBlanks(b[line..line + len][|OK|..]) == b[at..line + len]
  {
    var s := b[line..line + len][|OK|..];
    assert s == b[line + 3..line + len];
    assert s[at - (line + 3)..] == b[at..line + len];
    WithoutBlanksIs(s, at - (line + 3));
  }

  lemma {:induction false} WithoutBlanksIs(s: seq<byte>, k: nat)
    requires k <= |s| && (k < |s| ==> s[k] != SPACE)
    requires forall j :: 0 <= j < k ==> s[j] == SPACE
    ensures WithoutBlanks(s) == s[k..]
    decreases k
  {
    if k > 0 {
      WithoutBlanksIs(s[1..], k - 1);
    }
  }

  lemma OkIsNotErr(s: seq<byte>)
    ensures ERR <= s ==> !(OK <= s)
    ensures OK <= s ==> |s| >= 3
  {
    if ERR <= s {
      assert s[0] == ERR[0] != OK[0];
    }
  }

  const OK: seq<byte> := ['+' as int, 'O' as int, 'K' as int]
  const ERR: seq<byte> := ['-' as int, 'E' as int, 'R' as int, 'R' as int]

  lemma NoBytes(s: seq<byte>)
    requires s == []
    ensures FirstCrlf(s) == -1
  {
  }
}
