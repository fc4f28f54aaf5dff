/** Reading a body up to a cap without losing a byte of it. */
module CappedBody {
  import opened Options
  import opened Pieces

  datatype Frame = Data(bytes: Bytes) | Trailers | Broken

  /** A stream of frames, or bytes already read put back in front of one. */
  datatype Body = Stream(frames: seq<Frame>) | Prefixed(head: Option<Bytes>, rest: Body)

  /** What reading the body to its end would give. */
  function Frames(b: Body): seq<Frame> {
    match b
    case Stream(frames) => frames
    case Prefixed(Some(head), rest) => [Data(head)] + Frames(rest)
    case Prefixed(None, rest) => Frames(rest)
  }

  /** The next frame, and the body without it; `Prefixed` gives its head once. */
  function Poll(b: Body): (Option<Frame>, Body) {
    match b
    case Stream(frames) => if frames == [] then (None, b) else (Some(frames[0]), Stream(frames[1..]))
    case Prefixed(Some(head), rest) => (Some(Data(head)), Prefixed(None, rest))
    case Prefixed(None, rest) => (Poll(rest).0, Prefixed(None, Poll(rest).1))
  }

  lemma {:induction false} PollTakesOne(b: Body)
    ensures Frames(b) == [] <==> Poll(b).0 == None
    ensures Frames(b) != [] ==> Poll(b).0 == Some(Frames(b)[0]) && Frames(Poll(b).1) == Frames(b)[1..]
  {
    match b
    case Stream(_) =>
    case Prefixed(Some(_), _) =>
    case Prefixed(None, rest) => PollTakesOne(rest);
  }

  /** The data bytes, in order, whatever comes between. */
  function DataOf(frames: seq<Frame>): Bytes {
    if frames == [] then [] else (if frames[0].Data? then frames[0].bytes else []) + DataOf(frames[1..])
  }

  lemma {:induction false} DataConcat(a: seq<Frame>, b: seq<Frame>)
    ensures DataOf(a + b) == DataOf(a) + DataOf(b)
  {
    if a == [] {
      assert a + b == b;
    } else {
      assert (a + b)[1..] == a[1..] + b;
      DataConcat(a[1..], b);
    }
  }

  lemma DataMore(frames: seq<Frame>, i: nat)
    requires i < |frames|
    ensures DataOf(frames[..i + 1]) == DataOf(frames[..i]) + (if frames[i].Data? then frames[i].bytes else [])
  {
    DataConcat(frames[..i], [frames[i]]);
    assert frames[..i + 1] == frames[..i] + [frames[i]];
    assert DataOf([frames[i]]) == (if frames[i].Data? then frames[i].bytes else []) + DataOf([]);
  }

  predicate Sound(frames: seq<Frame>) { forall i :: 0 <= i < |frames| ==> !frames[i].Broken? }

  // ---------------------------------------------------------------- The three ways a body can go

  /** It ends within the cap. */
  predicate Fits(frames: seq<Frame>, cap: nat) { Sound(frames) && |DataOf(frames)| <= cap }

  /** Frame `i` is the one that crosses the cap. */
  predicate CrossesAt(frames: seq<Frame>, cap: nat, i: nat) {
    i < |frames| && Sound(frames[..i]) && frames[i].Data? && |DataOf(frames[..i])| <= cap < |DataOf(frames[..i + 1])|
  }

  /** The stream breaks at frame `i`, still within the cap. */
  predicate BreaksAt(frames: seq<Frame>, cap: nat, i: nat) {
    i < |frames| && Sound(frames[..i]) && frames[i].Broken? && |DataOf(frames[..i])| <= cap
  }

  lemma DataGrows(frames: seq<Frame>, i: nat, j: nat)
    requires i <= j <= |frames|
    ensures |DataOf(frames[..i])| <= |DataOf(frames[..j])|
  {
    DataConcat(frames[..i], frames[i..j]);
    assert frames[..j] == frames[..i] + frames[i..j];
  }

  /** No body goes two ways. */
  lemma OneWay(frames: seq<Frame>, cap: nat, i: nat, j: nat)
    ensures !(CrossesAt(frames, cap, i) && BreaksAt(frames, cap, j))
    ensures CrossesAt(frames, cap, i) || BreaksAt(frames, cap, i) ==> !Fits(frames, cap)
    ensures CrossesAt(frames, cap, i) && CrossesAt(frames, cap, j) ==> i == j
  {
    assert frames[..|frames|] == frames;
    if i < |frames| {
      DataGrows(frames, i + 1, |frames|);
      if i < j <= |frames| {
        DataGrows(frames, i + 1, j);
      }
    }
    if j < |frames| && j < i <= |frames| {
      DataGrows(frames, j + 1, i);
      if frames[j].Broken? {
        assert frames[..i][j].Broken?;
      }
    }
  }

  // ---------------------------------------------------------------- Collecting

  datatype Outcome = Whole(bytes: Bytes) | TooLarge(body: Body) | Failed

  /** What was read goes back in front, the crossing frame untouched. */
  function PutBack(buf: Bytes, data: Bytes, rest: Body): Body {
    var crossing := Prefixed(Some(data), rest);
    if buf == [] then crossing else Prefixed(Some(buf), crossing)
  }

  /** The bytes before frame `i` as one frame, if there are any, then the frames as they came. */
  function Regrouped(frames: seq<Frame>, i: nat): seq<Frame>
    requires i <= |frames|
  {
    (if DataOf(frames[..i]) == [] then [] else [Data(DataOf(frames[..i]))]) + frames[i..]
  }

  lemma PutBackData(frames: seq<Frame>, i: nat, rest: Body)
    requires i < |frames| && frames[i].Data? && Frames(rest) == frames[i + 1..]
    ensures DataOf(Frames(PutBack(DataOf(frames[..i]), frames[i].bytes, rest))) == DataOf(frames)
    ensures Frames(PutBack(DataOf(frames[..i]), frames[i].bytes, rest)) == Regrouped(frames, i)
  {
    var buf := DataOf(frames[..i]);
    var crossing := Prefixed(Some(frames[i].bytes), rest);
    assert Frames(crossing) == frames[i..];
    assert frames == frames[..i] + frames[i..];
    DataConcat(frames[..i], frames[i..]);
    if buf != [] {
      assert ([Data(buf)] + frames[i..])[1..] == frames[i..];
    }
  }

  lemma OnlyOne(frames: seq<Frame>, cap: nat)
    ensures forall i, j :: !(CrossesAt(frames, cap, i) && BreaksAt(frames, cap, j))
    ensures forall i :: CrossesAt(frames, cap, i) || BreaksAt(frames, cap, i) ==> !Fits(frames, cap)
    ensures forall i, j :: CrossesAt(frames, cap, i) && CrossesAt(frames, cap, j) ==> i == j
  {
    forall i: nat, j: nat
      ensures !(CrossesAt(frames, cap, i) && BreaksAt(frames, cap, j))
      ensures CrossesAt(frames, cap, i) && CrossesAt(frames, cap, j) ==> i == j
    {
      OneWay(frames, cap, i, j);
    }
    forall i: nat
      ensures CrossesAt(frames, cap, i) || BreaksAt(frames, cap, i) ==> !Fits(frames, cap)
    {
      OneWay(frames, cap, i, i);
    }
  }

  /** `collect_capped`: every byte within the cap, or the body given back with all its bytes in
      order; an error only if the stream broke before the cap was crossed. */
  method CollectCapped(b: Body, cap: nat) returns (r: Outcome)
    ensures r.Whole? <==> Fits(Frames(b), cap)
    ensures r.TooLarge? <==> exists i :: CrossesAt(Frames(b), cap, i)
    ensures r.Failed? <==> exists i :: BreaksAt(Frames(b), cap, i)
    ensures r.Whole? ==> r.bytes == DataOf(Frames(b))
    ensures r.TooLarge? ==> DataOf(Frames(r.body)) == DataOf(Frames(b))
    ensures r.TooLarge? ==> forall i :: CrossesAt(Frames(b), cap, i) ==> Frames(r.body) == Regrouped(Frames(b), i)
  {
    ghost var frames := Frames(b);
    OnlyOne(frames, cap);
    var body, buf := b, [];
    ghost var i := 0;
    assert frames[0..] == frames;
    while true
      invariant i <= |frames| && Frames(body) == frames[i..] && Sound(frames[..i])
      invariant buf == DataOf(frames[..i]) && |buf| <= cap
      decreases |frames| - i
    {
      PollTakesOne(body);
      var next := Poll(body);
      if next.0.None? {
        assert frames[..i] == frames;
        return Whole(buf);
      }
      var frame := next.0.value;
      assert frame == frames[i] && Frames(next.1) == frames[i + 1..];
      DataMore(frames, i);
      body := next.1;
      if frame.Broken? {
        assert BreaksAt(frames, cap, i);
        return Failed;
      }
      if frame.Data? {
        if |buf| + |frame.bytes| > cap {
          assert CrossesAt(frames, cap, i);
          PutBackData(frames, i, body);
          return TooLarge(PutBack(buf, frame.bytes, body));
        }
        buf := buf + frame.bytes;
      }
      assert frames[..i + 1] == frames[..i] + [frames[i]];
      i := i + 1;
    }
  }

  /** Reading a body frame by frame gives its data, up to where it breaks. */
  method Drain(b: Body) returns (bytes: Bytes, whole: bool)
    ensures whole <==> Sound(Frames(b))
    ensures whole ==> bytes == DataOf(Frames(b))
  {
    ghost var frames := Frames(b);
    var body := b;
    bytes := [];
    ghost var i := 0;
    while true
      invariant i <= |frames| && Frames(body) == frames[i..] && Sound(frames[..i]) && bytes == DataOf(frames[..i])
      decreases |frames| - i
    {
      PollTakesOne(body);
      var next := Poll(body);
      if next.0.None? {
        assert frames[..i] == frames;
        return bytes, true;
      }
      assert next.0.value == frames[i] && Frames(next.1) == frames[i + 1..];
      if next.0.value.Broken? {
        return bytes, false;
      }
      DataMore(frames, i);
      if next.0.value.Data? {
        bytes := bytes + next.0.value.bytes;
      }
      assert frames[..i + 1] == frames[..i] + [frames[i]];
      body := next.1;
      i := i + 1;
    }
  }
}
