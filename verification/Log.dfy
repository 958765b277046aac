/** The buffered logger of log.c, called serially.  Its interleavings are in LogProtocol. */
module Log {
  class Logger {
    const buf: array<char>
    var head: nat           // bytes waiting in the buffer
    var written: string     // everything written to the log file

    ghost predicate Valid()
      reads this
    {
      head < buf.Length
    }

    /** What the log holds: the file followed by the buffer. */
    ghost function Contents(): string
      reads this, buf
      requires head <= buf.Length
    {
      written + buf[..head]
    }

    constructor (bufferSize: nat)
      requires bufferSize > 0
      ensures Valid() && fresh(buf) && buf.Length == bufferSize && Contents() == ""
    {
      buf := new char[bufferSize](_ => '\0');
      head, written := 0, "";
    }

    /** write(2) of the first n bytes of the buffer, taken whole. */
    method WriteLog(n: nat) returns (code: int)
      requires 0 < n <= buf.Length
      modifies this`written
      ensures code == n && written == old(written) + buf[..n]
    {
      written := written + buf[..n];
      return n;
    }

    method FlushLogger()
      requires head <= buf.Length
      modifies this`head, this`written
      ensures head == 0 && written == old(Contents())
    {
      while head != 0
        invariant head <= buf.Length
        invariant written + buf[..head] == old(Contents())
      {
        var code := WriteLog(head);
        if code > 0 {
          assert code == head;
          head := head - code;
        } else {
          return;
        }
      }
    }

    /** Appends a record, through the buffer when it fits, else piece by piece with flushes. */
    method LogBuf(text: array<char>, len: nat)
      requires Valid() && len <= text.Length && text != buf
      modifies this`head, this`written, buf
      ensures Valid() && Contents() == old(Contents()) + text[..len]
      ensures old(head) + len < buf.Length ==> written == old(written) && head == old(head) + len
      ensures old(head) + len >= buf.Length ==> head == 0
    {
      if head + len < buf.Length {
        head := head + len;
        var i := len;
        while i > 0
          invariant 0 <= i <= len && head == old(head) + len < buf.Length && written == old(written)
          invariant buf[..head - i] == old(buf[..head]) + text[..len - i]
        {
          ghost var done := buf[..head - i];
          buf[head - i] := text[len - i];
          assert buf[..head - i + 1] == done + [text[len - i]];
          assert text[..len - i + 1] == text[..len - i] + [text[len - i]];
          i := i - 1;
        }
        return;
      }
      AppendSlowly(text, len);
    }

    /** The second half of log_buf: fill the buffer, flush it whenever it is full, and flush
        what remains behind a flush. */
    method AppendSlowly(text: array<char>, len: nat)
      requires Valid() && len <= text.Length && text != buf && head + len >= buf.Length
      modifies this`head, this`written, buf
      ensures head == 0 && Contents() == old(Contents()) + text[..len]
    {
      var flushedPartial, p := false, 0;
      while p != len
        invariant 0 <= p <= len && head < buf.Length
        invariant Contents() == old(Contents()) + text[..p]
        invariant !flushedPartial ==> head == old(head) + p
        decreases len - p
      {
        p := Fill(text, p, len);
        if head == buf.Length {
          FlushLogger();
          flushedPartial := true;
        }
      }
      if flushedPartial && head != 0 {
        FlushLogger();
      }
    }

    /** The inner copy loop: until the buffer is full or the record ends. */
    method Fill(text: array<char>, from: nat, len: nat) returns (p: nat)
      requires head < buf.Length && from < len <= text.Length && text != buf
      modifies this`head, buf
      ensures from < p <= len && head == old(head) + (p - from) <= buf.Length
      ensures p == len || head == buf.Length
      ensures Contents() == old(Contents()) + text[from..p]
    {
      p := from;
      while head != buf.Length && p != len
        invariant from <= p <= len && head == old(head) + (p - from) <= buf.Length
        invariant buf[..head] == old(buf[..head]) + text[from..p]
      {
        ghost var done := buf[..head];
        buf[head] := text[p];
        assert buf[..head + 1] == done + [text[p]];
        assert text[from..p + 1] == text[from..p] + [text[p]];
        head, p := head + 1, p + 1;
      }
    }

    /** destroy_log: nothing that was logged is lost. */
    method DestroyLog()
      requires Valid()
      modifies this`head, this`written
      ensures written == old(Contents())
    {
      FlushLogger();
    }
  }
}
