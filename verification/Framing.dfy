/** Length-prefixed frames over a buffered reader with a bounded peek window: readBytes and
    ReadAllData in netserve/transcipher.go. */
module Framing {
  import opened Bytes
  import opened Outcomes
  import opened Words

  datatype PeekError = NoError | BufferFull | StreamError

  /** A bufio.Reader: `rest` is what it has yet to hand out, buffered or not, before the
      stream ends with an error; Peek shows at most `size` bytes of it. */
  class Reader {
    const size: nat
    var rest: seq<byte>

    constructor (size: nat, stream: seq<byte>)
      requires size > 0
      ensures this.size == size && rest == stream
    {
      this.size := size;
      rest := stream;
    }

    /** Peek(n): a request for more than the buffer holds gives what there is of a whole
        buffer, and never the error of the stream. */
    function Peek(n: nat): (r: (seq<byte>, PeekError))
      reads this
      ensures r.0 <= rest
    {
      if n > size then (rest[..if |rest| < size then |rest| else size], BufferFull)
      else if |rest| >= n then (rest[..n], NoError)
      else (rest, StreamError)
    }

    /** readBytes returns, and then the next n bytes, exactly when there are that many. */
    method ReadBytes(n: int) returns (r: Result<seq<byte>>)
      requires size > 0
      modifies this
      ensures r.Returned? <==> 0 < n <= |old(rest)|
      ensures r.Returned? ==> r.value == old(rest)[..n] && rest == old(rest)[n..]
    {
      if n <= 0 {
        return Panicked;
      }
      var b, left, counter := [], n, 0;
      while true
        invariant b + rest == old(rest) && left == n - |b| > 0
        invariant 0 <= counter <= 10
        decreases |rest|, 10 - counter
      {
        var (tmp, err) := Peek(left);
        assert rest == tmp + rest[|tmp|..];
        rest := rest[|tmp|..];
        if err == NoError && b == [] {
          return Returned(tmp);
        }
        if err == StreamError {
          return Panicked;
        }
        if |tmp| == 0 {
          counter := counter + 1;
          if counter > 10 {
            return Panicked;
          }
          continue;
        }
        b := b + tmp;
        if err == NoError {
          return Returned(b);
        }
        left := left - |tmp|;
      }
    }

    method ReadAllData() returns (r: Result<seq<byte>>)
      requires size > 0
      modifies this
      ensures r.Returned? <==> ReadFrame(old(rest)).Returned?
      ensures r.Returned? ==> ReadFrame(old(rest)) == Returned((r.value, rest))
    {
      var prefix := ReadBytes(4);
      if prefix.Panicked? {
        return Panicked;
      }
      var length := FromLe(prefix.value);
      if length <= 0 {
        return Panicked;
      }
      r := ReadBytes(length);
    }
  }

  /** The first frame of a stream and what follows it. */
  function ReadFrame(s: seq<byte>): Result<(seq<byte>, seq<byte>)> {
    if |s| < 4 then Panicked
    else
      var n := FromLe(s[..4]);
      if n == 0 || |s| - 4 < n then Panicked else Returned((s[4..][..n], s[4..][n..]))
  }

  function Frame(data: seq<byte>): seq<byte> {
    Le(|data|, 4) + data
  }

  function Stream(frames: seq<seq<byte>>): seq<byte> {
    if frames == [] then [] else Frame(frames[0]) + Stream(frames[1..])
  }

  /** Reading k frames one after the other. */
  function ReadFrames(s: seq<byte>, k: nat): Result<(seq<seq<byte>>, seq<byte>)> {
    if k == 0 then Returned(([], s))
    else
      match ReadFrame(s)
      case Panicked => Panicked
      case Returned((data, t)) =>
        match ReadFrames(t, k - 1)
        case Panicked => Panicked
        case Returned((more, rest)) => Returned(([data] + more, rest))
  }

  /** A prefix that counts, modulo its width, what follows it. */
  lemma PrefixReads(n: nat, body: seq<byte>, t: seq<byte>)
    requires n % TWO_TO_THE_32 == |body| > 0
    ensures ReadFrame(Le(n, 4) + body + t) == Returned((body, t))
  {
    var s := Le(n, 4) + body + t;
    LeTruncates(n, 4);
    Widths();
    assert s[..4] == Le(n, 4) && s[4..] == body + t;
  }

  /** A frame is read back whole, and nothing past it, exactly when it is not empty and its
      length fits the four bytes of the prefix. */
  lemma FrameReadsBack(data: seq<byte>, t: seq<byte>)
    ensures ReadFrame(Frame(data) + t) == Returned((data, t)) <==> 0 < |data| < TWO_TO_THE_32
  {
    if 0 < |data| < TWO_TO_THE_32 {
      PrefixReads(|data|, data, t);
      assert Frame(data) + t == Le(|data|, 4) + data + t;
    } else {
      ReadIsFrame(Frame(data) + t);
    }
  }

  /** Whatever is read was a frame. */
  lemma ReadIsFrame(s: seq<byte>)
    ensures ReadFrame(s).Returned? ==>
      var (data, t) := ReadFrame(s).value; s == Frame(data) + t && 0 < |data| < TWO_TO_THE_32
  {
    if ReadFrame(s).Returned? {
      LeOfFromLe(s[..4]);
      Widths();
      assert s == s[..4] + s[4..];
    }
  }

  lemma ReadFramesStep(frame: seq<byte>, rest: seq<byte>, k: nat, more: seq<seq<byte>>, t: seq<byte>)
    requires 0 < |frame| < TWO_TO_THE_32 && ReadFrames(rest, k) == Returned((more, t))
    ensures ReadFrames(Frame(frame) + rest, k + 1) == Returned(([frame] + more, t))
  {
    FrameReadsBack(frame, rest);
  }

  lemma StreamSplits(frames: seq<seq<byte>>, t: seq<byte>)
    requires frames != []
    ensures Stream(frames) + t == Frame(frames[0]) + (Stream(frames[1..]) + t)
  {
  }

  /** Repeated reads give the frames of a stream in order and leave what follows them. */
  lemma {:induction false} StreamReadsBack(frames: seq<seq<byte>>, t: seq<byte>)
    requires forall f | f in frames :: 0 < |f| < TWO_TO_THE_32
    ensures ReadFrames(Stream(frames) + t, |frames|) == Returned((frames, t))
  {
    if frames == [] {
      assert Stream(frames) + t == t;
    } else {
      assert frames[0] in frames;
      StreamReadsBack(frames[1..], t);
      StreamSplits(frames, t);
      ReadFramesStep(frames[0], Stream(frames[1..]) + t, |frames| - 1, frames[1..], t);
      assert [frames[0]] + frames[1..] == frames;
    }
  }
}
