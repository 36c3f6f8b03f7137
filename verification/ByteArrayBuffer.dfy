/** A byte queue kept as a list of chunks. */
module ByteArrayBuffers {
  newtype byte = x: int | 0 <= x < 0x100

  type Size = n: int | 0 <= n < 0x1_0000_0000

  /** The chunks one after the other. */
  function Flat(parts: seq<seq<byte>>): seq<byte> {
    if parts == [] then [] else parts[0] + Flat(parts[1..])
  }

  lemma {:induction false} FlatAppend(a: seq<seq<byte>>, b: seq<seq<byte>>)
    ensures Flat(a + b) == Flat(a) + Flat(b)
  {
    if a == [] {
      assert a + b == b;
    } else {
      assert (a + b)[0] == a[0] && (a + b)[1..] == a[1..] + b;
      FlatAppend(a[1..], b);
      assert a[0] + (Flat(a[1..]) + Flat(b)) == a[0] + Flat(a[1..]) + Flat(b);
    }
  }

  /** The i-th chunk is a slice of the whole. */
  lemma FlatSlice(parts: seq<seq<byte>>, i: nat)
    requires i < |parts|
    ensures var before := |Flat(parts[..i])|;
      && |Flat(parts[..i + 1])| == before + |parts[i]| <= |Flat(parts)|
      && Flat(parts)[before..before + |parts[i]|] == parts[i]
  {
    assert parts == parts[..i] + ([parts[i]] + parts[i + 1..]);
    assert parts[..i + 1] == parts[..i] + [parts[i]];
    FlatAppend(parts[..i], [parts[i]] + parts[i + 1..]);
    FlatAppend(parts[..i], [parts[i]]);
    assert [parts[i]][1..] == [] && ([parts[i]] + parts[i + 1..])[1..] == parts[i + 1..];
  }

  /** Copying on from a chunk continues the slice of the whole. */
  lemma SliceGrows(parts: seq<seq<byte>>, i: nat, offs: nat, srcOffs: nat, copied: nat, n: nat, out: seq<byte>)
    requires i < |parts| && srcOffs + copied == |Flat(parts[..i])| + offs && offs + n <= |parts[i]|
    requires copied + n <= |out| && srcOffs + copied <= |Flat(parts)|
    requires out[..copied] == Flat(parts)[srcOffs..srcOffs + copied]
    requires out[copied..copied + n] == parts[i][offs..offs + n]
    ensures srcOffs + copied + n <= |Flat(parts)|
    ensures out[..copied + n] == Flat(parts)[srcOffs..srcOffs + copied + n]
  {
    hide Flat;
    FlatSlice(parts, i);
    var flat, before := Flat(parts), |Flat(parts[..i])|;
    assert out[..copied + n] == out[..copied] + out[copied..copied + n];
    SubSlice(flat, before, before + |parts[i]|, offs, offs + n);
  }

  lemma SubSlice(s: seq<byte>, a: nat, b: nat, c: nat, d: nat)
    requires a <= b <= |s| && c <= d <= b - a
    ensures s[a..b][c..d] == s[a + c..a + d]
  {
    var whole, part := s[a..b][c..d], s[a + c..a + d];
    forall k | 0 <= k < d - c
      ensures whole[k] == part[k]
    {
    }
  }

  lemma SuffixTwice(s: seq<byte>, a: nat, b: nat)
    requires a + b <= |s|
    ensures s[a..][b..] == s[a + b..]
  {
  }

  class ByteArray {
    var data: array<byte>

    constructor ()
      ensures fresh(data) && Bytes() == []
    {
      data := new byte[0];
    }

    function Bytes(): seq<byte>
      reads this, data
    {
      data[..]
    }

    /** setDataFromBuffer: a new block only when the length changes. */
    method SetDataFromBuffer(src: array<byte>, length: Size)
      requires length <= src.Length && src != data
      modifies this, data
      ensures Bytes() == src[..length] && (data == old(data) || fresh(data))
    {
      if length != data.Length {
        data := new byte[length];
      }
      forall k | 0 <= k < length {
        data[k] := src[k];
      }
    }

    method AddDataFromBuffer(src: array<byte>, length: Size)
      requires length <= src.Length && data.Length + length < 0x1_0000_0000
      modifies this
      ensures Bytes() == old(Bytes()) + src[..length] && (data == old(data) || fresh(data))
    {
      if length == 0 {
        return;
      }
      var ndata := new byte[data.Length + length];
      forall k | 0 <= k < data.Length {
        ndata[k] := data[k];
      }
      forall k | 0 <= k < length {
        ndata[data.Length + k] := src[k];
      }
      data := ndata;
    }

    /** copyDataToBuffer: as much as is there, written from position `at` on.  Where bytes are there, the sum
        of offset and length must not wrap around. */
    method CopyDataToBuffer(dst: array<byte>, at: nat, length: Size, srcOffs: Size) returns (copied: Size)
      requires dst != data && at + length <= dst.Length && data.Length < 0x1_0000_0000
      requires srcOffs < data.Length ==> srcOffs + length < 0x1_0000_0000
      modifies dst
      ensures copied == if srcOffs >= |Bytes()| then 0
                        else if srcOffs + length > |Bytes()| then |Bytes()| - srcOffs else length
      ensures copied > 0 ==> dst[at..at + copied] == Bytes()[srcOffs..srcOffs + copied]
      ensures forall k | 0 <= k < at || at + copied <= k < dst.Length :: dst[k] == old(dst[k])
    {
      if srcOffs >= data.Length {
        return 0;
      }
      copied := if (srcOffs + length) % 0x1_0000_0000 > data.Length then data.Length - srcOffs else length;
      forall k | 0 <= k < copied {
        dst[at + k] := data[srcOffs + k];
      }
    }

    method TruncateData(truncleft: Size, truncright: Size)
      requires truncleft + truncright <= data.Length
      modifies this
      ensures Bytes() == old(Bytes())[truncleft..old(data.Length) - truncright] && (data == old(data) || fresh(data))
    {
      if truncleft != 0 || truncright != 0 {
        var nlength := data.Length - (truncleft + truncright);
        var ndata := new byte[nlength];
        forall k | 0 <= k < nlength {
          ndata[k] := data[truncleft + k];
        }
        data := ndata;
      }
    }
  }

  ghost function Parts(chunks: seq<ByteArray>): (parts: seq<seq<byte>>)
    reads chunks, set c | c in chunks :: c.data
    ensures |parts| == |chunks| && forall k | 0 <= k < |parts| :: parts[k] == chunks[k].data[..]
  {
    seq(|chunks|, k requires 0 <= k < |chunks| reads chunks, (set c | c in chunks :: c.data) => chunks[k].data[..])
  }

  class ByteArrayBuffer {
    var dataLengthM: int
    var dataListM: seq<ByteArray>

    constructor ()
      ensures Valid() && Contents() == [] && dataListM == []
    {
      dataLengthM, dataListM := 0, [];
    }

    /** The queue the chunks stand for. */
    ghost function Contents(): seq<byte>
      reads this, dataListM, set c | c in dataListM :: c.data
    {
      Flat(Parts(dataListM))
    }

    /** The length is right, no two entries share a chunk, and the chunks have 32-bit sizes. */
    ghost predicate Valid()
      reads this, dataListM, set c | c in dataListM :: c.data
    {
      && dataLengthM == |Contents()| < 0x1_0000_0000_0000_0000
      && (forall i, j | 0 <= i < j < |dataListM| :: dataListM[i] != dataListM[j])
      && forall k | 0 <= k < |dataListM| :: dataListM[k].data.Length < 0x1_0000_0000
    }

    method Push(buffer: array<byte>, bufferLength: Size)
      requires Valid() && bufferLength <= buffer.Length && |Contents()| + bufferLength < 0x1_0000_0000_0000_0000
      modifies this
      ensures Valid() && Contents() == old(Contents()) + buffer[..bufferLength]
      ensures exists chunk: ByteArray :: fresh(chunk) && dataListM == old(dataListM) + [chunk]
    {
      var byteArray := new ByteArray();
      byteArray.SetDataFromBuffer(buffer, bufferLength);
      ghost var parts := Parts(dataListM);
      dataListM := dataListM + [byteArray];
      dataLengthM := dataLengthM + bufferLength;
      assert Parts(dataListM) == parts + [buffer[..bufferLength]];
      FlatAppend(parts, [buffer[..bufferLength]]);
      assert [buffer[..bufferLength]][1..] == [];
    }

    /** A byte array is pushed by value. */
    method PushByteArray(byteArray: ByteArray)
      requires Valid() && byteArray.data.Length < 0x1_0000_0000
      requires |Contents()| + byteArray.data.Length < 0x1_0000_0000_0000_0000
      modifies this
      ensures Valid() && Contents() == old(Contents()) + byteArray.Bytes()
    {
      Push(byteArray.data, byteArray.data.Length);
    }

    /** The bytes from an offset on, as many as are there and fit. */
    method GetBytesToBuffer(buffer: array<byte>, bufferLength: Size, srcOffs: Size) returns (copied: Size)
      requires Valid() && bufferLength <= buffer.Length && Unwrapped(Parts(dataListM), srcOffs, bufferLength)
      requires forall c | c in dataListM :: c.data != buffer
      modifies buffer
      ensures srcOffs >= |Contents()| ==> copied == 0
      ensures srcOffs < |Contents()| ==>
        && copied == (if srcOffs + bufferLength > |Contents()| then |Contents()| - srcOffs else bufferLength)
        && buffer[..copied] == Contents()[srcOffs..srcOffs + copied]
      ensures forall k | copied <= k < buffer.Length :: buffer[k] == old(buffer[k])
      ensures Valid() && Contents() == old(Contents())
    {
      hide Flat, Parts;
      copied := 0;
      var offs := srcOffs;
      var i := 0;
      ghost var parts, flat := Parts(dataListM), Contents();
      assert parts[..0] == [] && parts[..|parts|] == parts;
      FlatOfNothing();
      while copied < bufferLength && i < |dataListM|
        invariant 0 <= i <= |dataListM| && 0 <= offs <= srcOffs && Parts(dataListM) == parts
        invariant CopiedTo(flat, srcOffs, bufferLength, copied, offs, |Flat(parts[..i])|, buffer[..])
        invariant forall k | copied <= k < buffer.Length :: buffer[k] == old(buffer[k])
      {
        copied, offs := CopyPart(i, buffer, bufferLength, srcOffs, copied, offs);
        i := i + 1;
      }
    }

    /** One round of the copying loop. */
    method CopyPart(i: nat, buffer: array<byte>, bufferLength: Size, srcOffs: Size, copied: Size, offs: Size)
      returns (nowCopied: Size, nowOffs: Size)
      requires Valid() && i < |dataListM| && bufferLength <= buffer.Length
      requires Unwrapped(Parts(dataListM), srcOffs, bufferLength)
      requires forall c | c in dataListM :: c.data != buffer
      requires offs <= srcOffs && copied < bufferLength
      requires CopiedTo(Contents(), srcOffs, bufferLength, copied, offs, |Flat(Parts(dataListM)[..i])|, buffer[..])
      modifies buffer
      ensures Parts(dataListM) == old(Parts(dataListM)) && nowOffs <= srcOffs && copied <= nowCopied
      ensures CopiedTo(Contents(), srcOffs, bufferLength, nowCopied, nowOffs,
                       |Flat(Parts(dataListM)[..i + 1])|, buffer[..])
      ensures forall k | nowCopied <= k < buffer.Length :: buffer[k] == old(buffer[k])
    {
      hide Flat, Valid, CopiedTo;
      ghost var parts, before := Parts(dataListM), buffer[..];
      ChunkIsSmall(i);
      SumFits(parts, i, srcOffs, bufferLength, copied, offs, buffer[..]);
      CopiedFits(Contents(), srcOffs, bufferLength, copied, offs, |Flat(parts[..i])|, buffer[..]);
      var cbytes := dataListM[i].CopyDataToBuffer(buffer, copied, bufferLength - copied, offs);
      assert Parts(dataListM) == parts;
      CopyStep(parts, i, srcOffs, bufferLength, copied, offs, cbytes, before, buffer[..]);
      if cbytes != 0 {
        nowCopied, nowOffs := copied + cbytes, 0;
      } else {
        nowCopied, nowOffs := copied, offs - dataListM[i].data.Length;
      }
    }

    /** drop: whole chunks from the front, then the front of one. */
    method Drop(lengthP: Size) returns (dropped: Size)
      requires Valid() && lengthP <= dataLengthM
      modifies this, dataListM
      ensures Valid() && Contents() == old(Contents())[lengthP..] && dropped == lengthP
      ensures forall c | c in dataListM :: c in old(dataListM)
    {
      hide Flat, Parts;
      var length := lengthP;
      ghost var all, passed := Contents(), 0;
      while length > 0
        invariant 0 <= length <= lengthP <= |all| && Valid() && Contents() == all[lengthP - length..]
        invariant 0 <= passed <= old(|dataListM|) && dataListM == old(dataListM)[passed..]
        decreases length, |dataListM|
      {
        FlatOfNothing();
        assert |Parts(dataListM)| > 0;
        assert dataListM[0] in old(dataListM);
        var sliceLength := dataListM[0].data.Length;
        SuffixTwice(all, lengthP - length, if sliceLength <= length then sliceLength else length);
        if sliceLength <= length {
          PopFront();
          passed := passed + 1;
          length := length - sliceLength;
        } else {
          CutFront(length);
          length := 0;
        }
      }
      dropped := lengthP;
    }

    method PopFront()
      requires Valid() && dataListM != []
      modifies this
      ensures Valid() && dataListM == old(dataListM)[1..]
      ensures old(dataListM[0].data.Length) <= |old(Contents())|
      ensures Contents() == old(Contents())[old(dataListM[0].data.Length)..]
    {
      ghost var parts := Parts(dataListM);
      dataLengthM := dataLengthM - dataListM[0].data.Length;
      dataListM := dataListM[1..];
      assert Parts(dataListM) == parts[1..];
    }

    method CutFront(length: Size)
      requires Valid() && dataListM != [] && length < dataListM[0].data.Length
      modifies `dataLengthM, dataListM[0]
      ensures Valid() && length <= |old(Contents())| && Contents() == old(Contents())[length..]
    {
      hide Flat, Parts;
      ghost var parts := Parts(dataListM);
      var front := dataListM[0];
      front.TruncateData(length, 0);
      assert front.Bytes() == parts[0][length..];
      forall k | 1 <= k < |dataListM|
        ensures Parts(dataListM)[k] == parts[k]
      {
        assert dataListM[k] != front && dataListM[k].data[..] == old(dataListM[k].data[..]);
      }
      FrontCut(parts, length, Parts(dataListM));
      dataLengthM := dataLengthM - length;
    }

    method PopBytesToBuffer(buffer: array<byte>, bufferLength: Size) returns (popped: Size)
      requires Valid() && bufferLength <= buffer.Length
      requires forall c | c in dataListM :: c.data != buffer
      modifies this, dataListM, buffer
      ensures Valid() && popped == Taken(old(Contents()), bufferLength)
      ensures buffer[..popped] == old(Contents())[..popped]
      ensures Contents() == old(Contents())[popped..]
      ensures forall c | c in dataListM :: c in old(dataListM)
    {
      var copied := GetBytesToBuffer(buffer, bufferLength, 0);
      popped := Drop(copied);
    }

    method Clear()
      requires Valid()
      modifies this
      ensures Valid() && Contents() == [] && dataListM == []
    {
      dataLengthM := 0;
      dataListM := [];
    }

    lemma ChunkIsSmall(i: nat)
      requires Valid() && i < |dataListM|
      ensures dataListM[i].data.Length < 0x1_0000_0000
    {
    }
  }

  /** In the copying loop: what has been copied is the right slice, and the offset left counts from the
      end of the chunks passed. */
  ghost predicate CopiedTo(flat: seq<byte>, srcOffs: nat, bufferLength: nat, copied: nat, offs: nat, passed: nat,
                           out: seq<byte>)
  {
    && copied <= bufferLength <= |out|
    && (copied < bufferLength ==> srcOffs + copied == passed + offs)
    && (copied > 0 ==> srcOffs + copied <= |flat| && (copied < bufferLength ==> offs == 0)
                       && out[..copied] == flat[srcOffs..srcOffs + copied])
  }

  /** The chunk that holds the offset does not make the sum of the offset inside it and the length wrap. */
  ghost predicate Unwrapped(parts: seq<seq<byte>>, srcOffs: nat, length: nat) {
    forall i | 0 <= i < |parts| && |Flat(parts[..i])| <= srcOffs < |Flat(parts[..i])| + |parts[i]| ::
      srcOffs - |Flat(parts[..i])| + length < 0x1_0000_0000
  }

  lemma SumFits(parts: seq<seq<byte>>, i: nat, srcOffs: nat, bufferLength: Size, copied: nat, offs: nat, out: seq<byte>)
    requires i < |parts| && copied < bufferLength && Unwrapped(parts, srcOffs, bufferLength)
    requires CopiedTo(Flat(parts), srcOffs, bufferLength, copied, offs, |Flat(parts[..i])|, out)
    ensures offs < |parts[i]| ==> offs + (bufferLength - copied) < 0x1_0000_0000
  {
  }

  /** The bounds check of copyDataToBuffer in 32-bit arithmetic says what it should exactly when the sum does
      not wrap around; otherwise it lets bytes behind the end be copied. */
  lemma BoundsCheckExactly(size: Size, srcOffs: Size, length: Size)
    requires srcOffs < size
    ensures ((srcOffs + length) % 0x1_0000_0000 > size <==> srcOffs + length > size) <==>
            srcOffs + length < 0x1_0000_0000
  {
    if srcOffs + length >= 0x1_0000_0000 {
      assert (srcOffs + length) % 0x1_0000_0000 == srcOffs + length - 0x1_0000_0000;
    }
  }

  lemma CopiedFits(flat: seq<byte>, srcOffs: nat, bufferLength: nat, copied: nat, offs: nat, passed: nat,
                   out: seq<byte>)
    requires CopiedTo(flat, srcOffs, bufferLength, copied, offs, passed, out)
    ensures copied <= bufferLength <= |out|
  {
  }

  /** What one more chunk adds. */
  lemma CopyStep(parts: seq<seq<byte>>, i: nat, srcOffs: nat, bufferLength: nat, copied: nat, offs: nat, n: nat,
                 before: seq<byte>, out: seq<byte>)
    requires i < |parts| && copied < bufferLength && |out| == |before|
    requires CopiedTo(Flat(parts), srcOffs, bufferLength, copied, offs, |Flat(parts[..i])|, before)
    requires n == if offs >= |parts[i]| then 0
                  else if offs + bufferLength - copied > |parts[i]| then |parts[i]| - offs else bufferLength - copied
    requires copied + n <= |out| && forall k | 0 <= k < copied :: out[k] == before[k]
    requires n > 0 ==> out[copied..copied + n] == parts[i][offs..offs + n]
    ensures n == 0 ==> offs >= |parts[i]|
    ensures CopiedTo(Flat(parts), srcOffs, bufferLength, copied + n, if n == 0 then offs - |parts[i]| else 0,
                     |Flat(parts[..i + 1])|, out)
  {
    hide Flat;
    FlatSlice(parts, i);
    assert out[..copied] == before[..copied];
    if n > 0 {
      if copied == 0 {
        assert out[..0] == Flat(parts)[srcOffs..srcOffs];
      }
      SliceGrows(parts, i, offs, srcOffs, copied, n, out);
    }
  }

  lemma FlatOfNothing()
    ensures Flat([]) == []
  {
  }

  lemma FrontCut(parts: seq<seq<byte>>, n: nat, cut: seq<seq<byte>>)
    requires parts != [] && n <= |parts[0]| && |cut| == |parts| && cut[0] == parts[0][n..]
    requires forall k | 1 <= k < |parts| :: cut[k] == parts[k]
    ensures n <= |Flat(parts)| && Flat(cut) == Flat(parts)[n..]
  {
    assert cut[1..] == parts[1..];
  }

  /** A run of the queue: bytes pushed, or as many popped as asked for and there. */
  datatype Action = PushBytes(bytes: seq<byte>) | PopBytes(n: nat)

  function Taken(queue: seq<byte>, n: nat): nat {
    if n > |queue| then |queue| else n
  }

  /** What a run leaves in the queue, and what it has popped altogether. */
  function Run(queue: seq<byte>, actions: seq<Action>): (seq<byte>, seq<byte>)
    decreases |actions|
  {
    if actions == [] then (queue, [])
    else match actions[0]
      case PushBytes(bytes) => Run(queue + bytes, actions[1..])
      case PopBytes(n) =>
        var (end, out) := Run(queue[Taken(queue, n)..], actions[1..]);
        (end, queue[..Taken(queue, n)] + out)
  }

  function Pushed(actions: seq<Action>): seq<byte>
    decreases |actions|
  {
    if actions == [] then []
    else (if actions[0].PushBytes? then actions[0].bytes else []) + Pushed(actions[1..])
  }

  /** No byte is lost, doubled or reordered: what was there and what was pushed is what was popped and
      what is left. */
  lemma {:induction false} StreamIsPreserved(queue: seq<byte>, actions: seq<Action>)
    ensures var (end, out) := Run(queue, actions); out + end == queue + Pushed(actions)
    decreases |actions|
  {
    if actions != [] {
      match actions[0]
      case PushBytes(bytes) =>
        StreamIsPreserved(queue + bytes, actions[1..]);
        assert queue + (bytes + Pushed(actions[1..])) == queue + bytes + Pushed(actions[1..]);
      case PopBytes(n) =>
        var k := Taken(queue, n);
        StreamIsPreserved(queue[k..], actions[1..]);
        var (end, out) := Run(queue[k..], actions[1..]);
        assert queue[..k] + out + end == queue[..k] + (out + end);
        assert queue[..k] + (queue[k..] + Pushed(actions[1..])) == queue + Pushed(actions[1..]);
    }
  }

  /** The lengths of a run are 32-bit sizes, and the queue never outgrows its 64-bit length. */
  ghost predicate Sized(length: nat, actions: seq<Action>) {
    && length + |Pushed(actions)| < 0x1_0000_0000_0000_0000
    && forall k | 0 <= k < |actions| ::
         (if actions[k].PushBytes? then |actions[k].bytes| else actions[k].n) < 0x1_0000_0000
  }

  /** One action of a run on a buffer object. */
  method Act(buffer: ByteArrayBuffer, action: Action) returns (out: seq<byte>)
    requires buffer.Valid() && Sized(|buffer.Contents()|, [action])
    modifies buffer, buffer.dataListM
    ensures buffer.Valid() && (buffer.Contents(), out) == Run(old(buffer.Contents()), [action])
    ensures forall k | 0 <= k < |buffer.dataListM| ::
              buffer.dataListM[k] in old(buffer.dataListM) || fresh(buffer.dataListM[k])
  {
    OneAction(buffer.Contents(), action);
    out := [];
    match action {
      case PushBytes(bytes) =>
        var src := new byte[|bytes|](k requires 0 <= k < |bytes| => bytes[k]);
        assert src[..|bytes|] == bytes;
        buffer.Push(src, |bytes|);
      case PopBytes(n) =>
        var dst := new byte[n];
        var popped := buffer.PopBytesToBuffer(dst, n);
        out := dst[..popped];
    }
  }

  lemma OneAction(queue: seq<byte>, action: Action)
    requires Sized(|queue|, [action])
    ensures action.PushBytes? ==>
      |queue| + |action.bytes| < 0x1_0000_0000_0000_0000 && Run(queue, [action]) == (queue + action.bytes, [])
    ensures action.PopBytes? ==>
      Run(queue, [action]) == (queue[Taken(queue, action.n)..], queue[..Taken(queue, action.n)])
    ensures (if action.PushBytes? then |action.bytes| else action.n) < 0x1_0000_0000
  {
    assert [action][0] == action && [action][1..] == [];
    assert action.PopBytes? ==> queue[..Taken(queue, action.n)] + [] == queue[..Taken(queue, action.n)];
  }

  /** A whole run on a buffer object: what its own pushes and pops leave and return loses, doubles and
      reorders no byte. */
  method Perform(buffer: ByteArrayBuffer, actions: seq<Action>) returns (out: seq<byte>)
    requires buffer.Valid() && Sized(|buffer.Contents()|, actions)
    modifies buffer, buffer.dataListM
    ensures buffer.Valid() && (buffer.Contents(), out) == Run(old(buffer.Contents()), actions)
    ensures out + buffer.Contents() == old(buffer.Contents()) + Pushed(actions)
    decreases |actions|
  {
    hide ByteArrayBuffer.Valid, Run, Sized, Pushed;
    StreamIsPreserved(buffer.Contents(), actions);
    RunSplits(buffer.Contents(), actions);
    out := [];
    if actions != [] {
      var first := Act(buffer, actions[0]);
      var rest := Perform(buffer, actions[1..]);
      out := first + rest;
    }
  }

  /** A run is its first action and a run of the others. */
  lemma RunSplits(queue: seq<byte>, actions: seq<Action>)
    requires Sized(|queue|, actions)
    ensures actions == [] ==> Run(queue, actions) == (queue, [])
    ensures actions != [] ==>
      && Sized(|queue|, [actions[0]])
      && var (now, first) := Run(queue, [actions[0]]);
      && Sized(|now|, actions[1..])
      && var (end, rest) := Run(now, actions[1..]);
         Run(queue, actions) == (end, first + rest)
  {
    if actions != [] {
      assert [actions[0]][1..] == [];
      RestIsSized(queue, actions);
      OneAction(queue, actions[0]);
      assert actions[0].PushBytes? ==> Run(queue, actions) == Run(queue + actions[0].bytes, actions[1..]);
      assert [] + Run(Run(queue, [actions[0]]).0, actions[1..]).1 == Run(Run(queue, [actions[0]]).0, actions[1..]).1;
    }
  }

  lemma RestIsSized(queue: seq<byte>, actions: seq<Action>)
    requires actions != [] && Sized(|queue|, actions)
    ensures Sized(|queue|, [actions[0]])
    ensures actions[0].PushBytes? ==> Sized(|queue| + |actions[0].bytes|, actions[1..])
    ensures actions[0].PopBytes? ==> Sized(|queue| - Taken(queue, actions[0].n), actions[1..])
  {
    assert [actions[0]][1..] == [];
  }
}
