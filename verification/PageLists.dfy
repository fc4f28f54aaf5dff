/** Comma-separated header lists: what their elements are, and how a list is written. */
module PageLists {
  import opened Pieces
  import opened PageFrame
  import opened PageNonce

  const COMMA: byte := 44

  predicate Blank(b: byte) { b == 32 || b == 9 }

  function TrimLeft(s: Bytes): Bytes { if s != [] && Blank(s[0]) then TrimLeft(s[1..]) else s }

  function TrimRight(s: Bytes): Bytes
    decreases |s|
  {
    if s != [] && Blank(s[|s| - 1]) then TrimRight(s[..|s| - 1]) else s
  }

  function Trim(s: Bytes): Bytes { TrimRight(TrimLeft(s)) }

  function Trimmed(pieces: seq<Bytes>): seq<Bytes> {
    if pieces == [] then []
    else
      var t := Trim(pieces[0]);
      (if t == [] then [] else [t]) + Trimmed(pieces[1..])
  }

  /** Every element of a list-valued header, `unread` standing for a value that is not text. */
  function Elements(values: seq<Bytes>, unread: Bytes): seq<Bytes> {
    if values == [] then []
    else Trimmed(Split(if Readable(values[0]) then values[0] else unread, COMMA)) + Elements(values[1..], unread)
  }

  /** More of a list. */
  function Listed(names: seq<Bytes>): Bytes {
    if names == [] then [] else [COMMA, 32] + names[0] + Listed(names[1..])
  }

  // ---------------------------------------------------------------- What the elements are

  predicate AllBlank(s: Bytes) { forall i :: 0 <= i < |s| ==> Blank(s[i]) }

  /** Nothing to trim, and something left. */
  predicate Solid(t: Bytes) { t != [] && !Blank(t[0]) && !Blank(t[|t| - 1]) }

  /** `x` is `t` with blanks around it. */
  ghost predicate Padded(x: Bytes, t: Bytes) { Solid(t) && exists u, w :: AllBlank(u) && AllBlank(w) && x == u + t + w }

  lemma {:induction false} TrimsLeft(u: Bytes, t: Bytes)
    requires AllBlank(u) && (t == [] || !Blank(t[0]))
    ensures TrimLeft(u + t) == t
  {
    if u == [] {
      assert u + t == t;
    } else {
      assert (u + t)[0] == u[0] && (u + t)[1..] == u[1..] + t;
      TrimsLeft(u[1..], t);
    }
  }

  lemma {:induction false} TrimsRight(t: Bytes, w: Bytes)
    requires AllBlank(w) && (t == [] || !Blank(t[|t| - 1]))
    ensures TrimRight(t + w) == t
    decreases |w|
  {
    if w == [] {
      assert t + w == t;
    } else {
      var n := |w| - 1;
      assert (t + w)[|t + w| - 1] == w[n] && (t + w)[..|t + w| - 1] == t + w[..n];
      TrimsRight(t, w[..n]);
    }
  }

  lemma {:induction false} LeftBlanks(s: Bytes) returns (u: Bytes)
    ensures AllBlank(u) && s == u + TrimLeft(s) && (TrimLeft(s) == [] || !Blank(TrimLeft(s)[0]))
  {
    if s != [] && Blank(s[0]) {
      var rest := LeftBlanks(s[1..]);
      u := [s[0]] + rest;
    } else {
      u := [];
    }
  }

  lemma {:induction false} RightBlanks(s: Bytes) returns (w: Bytes)
    ensures AllBlank(w) && s == TrimRight(s) + w && (TrimRight(s) == [] || !Blank(TrimRight(s)[|TrimRight(s)| - 1]))
    decreases |s|
  {
    if s != [] && Blank(s[|s| - 1]) {
      var rest := RightBlanks(s[..|s| - 1]);
      w := rest + [s[|s| - 1]];
    } else {
      w := [];
    }
  }

  lemma TrimIsPadded(x: Bytes)
    requires Trim(x) != []
    ensures Padded(x, Trim(x))
  {
    var u := LeftBlanks(x);
    var l := TrimLeft(x);
    var w := RightBlanks(l);
    var t := Trim(x);
    assert l == t + w;
    assert t[0] == l[0];
    assert x == u + t + w;
  }

  lemma PaddedTrims(u: Bytes, t: Bytes, w: Bytes)
    requires AllBlank(u) && AllBlank(w) && Solid(t)
    ensures Trim(u + t + w) == t
  {
    assert u + t + w == u + (t + w) && (t + w)[0] == t[0];
    TrimsLeft(u, t + w);
    TrimsRight(t, w);
  }

  lemma TrimIff(x: Bytes, t: Bytes)
    requires t != []
    ensures Trim(x) == t <==> Padded(x, t)
  {
    if Trim(x) == t {
      TrimIsPadded(x);
    }
    if Padded(x, t) {
      var u, w :| AllBlank(u) && AllBlank(w) && x == u + t + w;
      PaddedTrims(u, t, w);
    }
  }

  lemma {:induction false} TrimmedIff(pieces: seq<Bytes>, t: Bytes)
    ensures t in Trimmed(pieces) <==> exists i :: 0 <= i < |pieces| && Padded(pieces[i], t)
  {
    if pieces != [] {
      TrimmedIff(pieces[1..], t);
      if t != [] {
        TrimIff(pieces[0], t);
      }
      assert forall i :: 0 < i < |pieces| ==> pieces[i] == pieces[1..][i - 1];
    }
  }

  /** `t` is an element of the list `v`; `unread` is one of a value that is not text. */
  ghost predicate ElementOf(v: Bytes, t: Bytes, unread: Bytes) {
    exists x :: x in Split(if Readable(v) then v else unread, COMMA) && Padded(x, t)
  }

  /** The elements are the stretches between commas, of every value, without the blanks around. */
  lemma {:induction false} ElementsIff(values: seq<Bytes>, t: Bytes, unread: Bytes)
    ensures t in Elements(values, unread) <==> exists i :: 0 <= i < |values| && ElementOf(values[i], t, unread)
  {
    if values != [] {
      ElementsIff(values[1..], t, unread);
      TrimmedIff(Split(if Readable(values[0]) then values[0] else unread, COMMA), t);
      assert forall i :: 0 < i < |values| ==> values[i] == values[1..][i - 1];
    }
  }

  // ---------------------------------------------------------------- Writing a list

  /** A word a list can hold. */
  predicate Item(t: Bytes) { Solid(t) && Readable(t) && COMMA !in t }

  predicate Items(words: seq<Bytes>) { forall i :: 0 <= i < |words| ==> Item(words[i]) }

  lemma SolidTrims(t: Bytes)
    requires Solid(t)
    ensures Trim(t) == t && Trim([32] + t) == t
  {
    TrimsLeft([], t);
    TrimsLeft([32], t);
    TrimsRight(t, []);
    assert [] + t == t && t + [] == t;
  }

  lemma TrimmedFirst(x: Bytes, t: Bytes, rest: seq<Bytes>)
    requires Trim(x) == t && t != []
    ensures Trimmed([x] + rest) == [t] + Trimmed(rest)
  {
    assert ([x] + rest)[0] == x && ([x] + rest)[1..] == rest;
  }

  lemma CutFirst(x: Bytes, t: Bytes, rest: Bytes)
    requires COMMA !in x && Trim(x) == t && t != []
    ensures Trimmed(Split(x + [COMMA] + rest, COMMA)) == [t] + Trimmed(Split(rest, COMMA))
  {
    SplitCut(x, COMMA, rest);
    TrimmedFirst(x, t, Split(rest, COMMA));
  }

  lemma CutLast(x: Bytes, t: Bytes)
    requires COMMA !in x && Trim(x) == t && t != []
    ensures Trimmed(Split(x, COMMA)) == [t]
  {
    FindNone(x, COMMA);
    assert Split(x, COMMA) == [x] + [];
    TrimmedFirst(x, t, []);
    assert Trimmed([]) == [];
  }

  lemma Regrouped(x: Bytes, c: byte, d: byte, n: Bytes, more: Bytes)
    ensures x + ([c, d] + n + more) == x + [c] + ([d] + n + more)
  {
    assert [c, d] == [c] + [d];
    assert [c] + [d] + n + more == [c] + ([d] + n + more);
  }

  lemma ListedCut(x: Bytes, names: seq<Bytes>)
    requires names != []
    ensures x + Listed(names) == x + [COMMA] + ([32] + names[0] + Listed(names[1..]))
  {
    Regrouped(x, COMMA, 32, names[0], Listed(names[1..]));
  }

  lemma PaddedItem(pad: Bytes, first: Bytes)
    requires (pad == [] || pad == [32]) && Item(first)
    ensures COMMA !in pad + first && Trim(pad + first) == first
  {
    SolidTrims(first);
    assert [] + first == first;
  }

  lemma {:induction false} ListedReads(pad: Bytes, first: Bytes, names: seq<Bytes>)
    requires (pad == [] || pad == [32]) && Item(first) && Items(names)
    ensures Trimmed(Split(pad + first + Listed(names), COMMA)) == [first] + names
    decreases |names|
  {
    var x := pad + first;
    PaddedItem(pad, first);
    if names == [] {
      assert x + Listed(names) == x && [first] + names == [first];
      CutLast(x, first);
    } else {
      ListedCut(x, names);
      ListedReads([32], names[0], names[1..]);
      CutFirst(x, first, [32] + names[0] + Listed(names[1..]));
      assert [names[0]] + names[1..] == names;
    }
  }

  lemma {:induction false} ListedReadable(names: seq<Bytes>)
    requires Items(names)
    ensures Readable(Listed(names))
  {
    if names != [] {
      ListedReadable(names[1..]);
      assert Readable([COMMA, 32]) && Readable(names[0]);
    }
  }

  lemma OneValue(v: Bytes, unread: Bytes)
    requires Readable(v)
    ensures Elements([v], unread) == Trimmed(Split(v, COMMA))
  {
    assert [v][1..] == [];
    assert Elements([v], unread) == Trimmed(Split(v, COMMA)) + Elements([v][1..], unread);
  }

  /** A written list has the elements it was written from. */
  lemma ListReads(first: Bytes, names: seq<Bytes>, unread: Bytes)
    requires Item(first) && Items(names)
    ensures Elements([first + Listed(names)], unread) == [first] + names
  {
    ListedReads([], first, names);
    assert [] + first + Listed(names) == first + Listed(names);
    ListedReadable(names);
    OneValue(first + Listed(names), unread);
  }

  lemma MiddleReadable(u: Bytes, t: Bytes, w: Bytes)
    requires Readable(u + t + w) && COMMA !in u + t + w
    ensures Readable(t) && COMMA !in t
  {
    assert forall k :: 0 <= k < |t| ==> t[k] == (u + t + w)[|u| + k];
  }

  lemma PieceItem(x: Bytes)
    requires COMMA !in x && Readable(x) && Trim(x) != []
    ensures Item(Trim(x))
  {
    TrimIsPadded(x);
    var t := Trim(x);
    var u, w :| AllBlank(u) && AllBlank(w) && x == u + t + w;
    MiddleReadable(u, t, w);
  }

  lemma {:induction false} TrimmedItems(pieces: seq<Bytes>)
    requires Free(pieces, COMMA) && forall i :: 0 <= i < |pieces| ==> Readable(pieces[i])
    ensures Items(Trimmed(pieces))
  {
    if pieces != [] {
      TrimmedItems(pieces[1..]);
      if Trim(pieces[0]) != [] {
        PieceItem(pieces[0]);
      }
    }
  }

  lemma {:induction false} SplitReadable(v: Bytes)
    requires Readable(v)
    ensures forall i :: 0 <= i < |Split(v, COMMA)| ==> Readable(Split(v, COMMA)[i])
    decreases |v|
  {
    var i := Find(v, COMMA);
    if i < |v| {
      SplitReadable(v[i + 1..]);
    }
  }

  /** The elements of any values can be written as a list again. */
  lemma {:induction false} ElementsItems(values: seq<Bytes>, unread: Bytes)
    requires Readable(unread)
    ensures Items(Elements(values, unread))
  {
    if values != [] {
      ElementsItems(values[1..], unread);
      var v := if Readable(values[0]) then values[0] else unread;
      JoinOfSplit(v, COMMA);
      SplitReadable(v);
      TrimmedItems(Split(v, COMMA));
    }
  }
}
