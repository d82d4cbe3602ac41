/** Packing an interlink vector into fields of the block extension, and unpacking it again. */
module InterlinkPacking {
  import opened Wrappers
  import opened ChainTypes
  import opened MerkleTypes
  import opened Interlinks

  const INTERLINK_VECTOR_PREFIX: byte := 1
  const U8_MAX: int := 0xff

  /** A field of the extension section: a two-byte key and its value. */
  datatype Field = Field(prefix: byte, index: byte, value: seq<byte>)

  // ----- Packing -----

  /** The first position from `j` on that does not repeat the id at `i`. */
  function RunEnd(links: seq<BlockId>, i: nat, j: nat): (e: nat)
    requires i < j <= |links|
    ensures j <= e <= |links|
    ensures forall t :: j <= t < e ==> links[t] == links[i]
    ensures e < |links| ==> links[e] != links[i]
    decreases |links| - j
  {
    if j < |links| && links[j] == links[i] then RunEnd(links, i, j + 1) else j
  }

  function RunField(links: seq<BlockId>, i: nat, e: nat): Field
    requires i < e <= |links| && i <= U8_MAX && e - i <= U8_MAX
  {
    Field(INTERLINK_VECTOR_PREFIX, i, [e - i] + BytesOf(links[i].digest))
  }

  function Prepend(fields: seq<Field>, r: Result<seq<Field>, NipopowError>): Result<seq<Field>, NipopowError> {
    match r
    case Failure(e) => Failure(e)
    case Success(rest) => Success(fields + rest)
  }

  /** One field per maximal run from position `i` on, keyed by the run's first position. */
  function PackFrom(links: seq<BlockId>, i: nat): Result<seq<Field>, NipopowError>
    requires i <= |links|
    decreases |links| - i
  {
    if i == |links| then Success([])
    else
      var e := RunEnd(links, i, i + 1);
      if i > U8_MAX || e - i > U8_MAX then Failure(Aborted)
      else Prepend([RunField(links, i, e)], PackFrom(links, e))
  }

  lemma PrependTwice(a: seq<Field>, b: seq<Field>, r: Result<seq<Field>, NipopowError>)
    ensures Prepend(a, Prepend(b, r)) == Prepend(a + b, r)
    ensures Prepend([], r) == r
  {
    if r.Success? {
      assert a + (b + r.value) == a + b + r.value;
      assert [] + r.value == r.value;
    }
  }

  lemma {:induction false} RunEndFrom(links: seq<BlockId>, i: nat, j: nat, k: nat)
    requires i < j <= k <= |links|
    requires forall t :: j <= t < k ==> links[t] == links[i]
    ensures RunEnd(links, i, j) == RunEnd(links, i, k)
    decreases k - j
  {
    if j < k {
      RunEndFrom(links, i, j + 1, k);
    }
  }

  /** The run that starts at `p` ends at `e`: its field comes first. */
  lemma PackUnfolds(links: seq<BlockId>, p: nat, e: nat)
    requires p < e <= |links| && RunEnd(links, p, p + 1) == e
    ensures p > U8_MAX || e - p > U8_MAX ==> PackFrom(links, p) == Failure(Aborted)
    ensures p <= U8_MAX && e - p <= U8_MAX
            ==> PackFrom(links, p) == Prepend([RunField(links, p, e)], PackFrom(links, e))
  {
  }

  /** Writes out the run `links[firstPos..i]`. */
  method PushRun(links: seq<BlockId>, res: seq<Field>, id: BlockId, count: byte, firstPos: nat, i: nat)
    returns (r: Result<seq<Field>, NipopowError>)
    requires firstPos < i <= |links| && firstPos + count == i && id == links[firstPos]
    requires RunEnd(links, firstPos, firstPos + 1) == i
    ensures r.Failure? ==> r.error == Aborted && PackFrom(links, firstPos) == Failure(Aborted)
    ensures r.Success? ==> Prepend(res, PackFrom(links, firstPos)) == Prepend(r.value, PackFrom(links, i))
  {
    hide PackFrom, Prepend, BytesOf;
    PackUnfolds(links, firstPos, i);
    if firstPos > U8_MAX { return Failure(Aborted); }
    PrependTwice(res, [RunField(links, firstPos, i)], PackFrom(links, i));
    r := Success(res + [Field(INTERLINK_VECTOR_PREFIX, firstPos, [count] + BytesOf(id.digest))]);
  }

  method PackInterlinks(links: seq<BlockId>) returns (r: Result<seq<Field>, NipopowError>)
    ensures r == PackFrom(links, 0)
  {
    if |links| == 0 { return Success([]); }
    hide PackFrom, Prepend;
    var res: seq<Field> := [];
    var currCount: byte := 1;
    var currId := links[0];
    var currFirstPos := 0;
    PrependTwice([], [], PackFrom(links, 0));
    for i := 1 to |links|
      invariant 0 <= currFirstPos && 1 <= currCount && currFirstPos + currCount == i
      invariant currId == links[currFirstPos]
      invariant RunEnd(links, currFirstPos, currFirstPos + 1) == RunEnd(links, currFirstPos, i)
      invariant PackFrom(links, 0) == Prepend(res, PackFrom(links, currFirstPos))
    {
      if links[i] == currId {
        if currCount == U8_MAX {
          PackUnfolds(links, currFirstPos, RunEnd(links, currFirstPos, i));
          PrependFailure(res, Aborted);
          return Failure(Aborted);
        }
        currCount := currCount + 1;
      } else {
        var pushed := PushRun(links, res, currId, currCount, currFirstPos, i);
        PrependFailure(res, Aborted);
        if pushed.Failure? { return Failure(pushed.error); }
        res := pushed.value;
        currId := links[i];
        currFirstPos := i;
        currCount := 1;
      }
    }
    r := PushRun(links, res, currId, currCount, currFirstPos, |links|);
    PrependFailure(res, Aborted);
    if r.Success? {
      PackOfNothing(links, r.value);
    }
  }

  lemma PrependFailure(fields: seq<Field>, e: NipopowError)
    ensures Prepend(fields, Failure(e)) == Failure(e)
  {
  }

  lemma PackOfNothing(links: seq<BlockId>, fields: seq<Field>)
    ensures PackFrom(links, |links|) == Success([])
    ensures Prepend(fields, Success([])) == Success(fields)
  {
    assert fields + [] == fields;
  }

  // ----- Which vectors can be packed -----

  predicate IsRunStart(links: seq<BlockId>, p: nat) {
    p < |links| && (p == 0 || links[p - 1] != links[p])
  }

  /** Every maximal run starts at a one-byte position and has a one-byte length. */
  ghost predicate RunsFit(links: seq<BlockId>, i: nat) {
    forall p :: i <= p && IsRunStart(links, p) ==> p <= U8_MAX && RunEnd(links, p, p + 1) - p <= U8_MAX
  }

  /** The runs from a run's start on are that run and those from its end on. */
  lemma RunsFitStep(links: seq<BlockId>, i: nat, e: nat)
    requires IsRunStart(links, i) && e == RunEnd(links, i, i + 1)
    ensures e == |links| || IsRunStart(links, e)
    ensures RunsFit(links, i) <==> i <= U8_MAX && e - i <= U8_MAX && RunsFit(links, e)
  {
    hide RunEnd;
    assert e < |links| ==> links[e - 1] == links[i];
    forall p | i <= p && IsRunStart(links, p)
      ensures p == i || p >= e
    {
    }
  }

  /** Packing from a run's start succeeds exactly when every run from there on fits. */
  lemma {:induction false} PackSucceedsIff(links: seq<BlockId>, i: nat)
    requires i == |links| || IsRunStart(links, i)
    ensures PackFrom(links, i).Success? <==> RunsFit(links, i)
    decreases |links| - i
  {
    if i < |links| {
      var e := RunEnd(links, i, i + 1);
      hide RunsFit, RunEnd;
      RunsFitStep(links, i, e);
      PackSucceedsIff(links, e);
    }
  }

  /** Packing from the run at `p`, whose end is known up to `i`. */
  lemma RunDecides(links: seq<BlockId>, p: nat, i: nat)
    requires p < i <= |links| && RunEnd(links, p, p + 1) == RunEnd(links, p, i)
    ensures i < |links| && links[i] == links[p] && i - p == U8_MAX ==> PackFrom(links, p).Failure?
    ensures p > U8_MAX ==> PackFrom(links, p).Failure?
    ensures (i == |links| || links[i] != links[p]) && p <= U8_MAX && i - p <= U8_MAX
            ==> (PackFrom(links, p).Success? <==> PackFrom(links, i).Success?)
  {
    PackUnfolds(links, p, RunEnd(links, p, p + 1));
    hide PackFrom;
  }

  method HasPackableInterlinks(links: seq<BlockId>) returns (packable: bool)
    ensures packable <==> links != [] && PackFrom(links, 0).Success?
    ensures packable <==> links != [] && RunsFit(links, 0)
  {
    hide PackFrom, RunsFit;
    if |links| == 0 { return false; }
    var current := links[0];
    var runLength := 1;
    PackSucceedsIff(links, 0);
    ghost var start := 0;
    for position := 1 to |links|
      invariant 0 <= start && start + runLength == position && 1 <= runLength <= U8_MAX
      invariant current == links[start] && start <= U8_MAX
      invariant RunEnd(links, start, start + 1) == RunEnd(links, start, position)
      invariant PackFrom(links, 0).Success? <==> PackFrom(links, start).Success?
    {
      RunDecides(links, start, position);
      if links[position] == current {
        if runLength == U8_MAX { return false; }
        runLength := runLength + 1;
      } else {
        if position > U8_MAX {
          RunDecides(links, position, position + 1);
          return false;
        }
        current := links[position];
        runLength := 1;
        start := position;
      }
    }
    RunDecides(links, start, |links|);
    PackOfNothing(links, []);
    return true;
  }

  // ----- Unpacking -----

  function Repeat(id: BlockId, qty: nat): (ids: seq<BlockId>)
    ensures |ids| == qty && forall i :: 0 <= i < qty ==> ids[i] == id
  {
    seq(qty, _ => id)
  }

  /** The ids held by the interlink fields of an extension, in order; `None` if one is not 33 bytes long. */
  function Unpack(extension: seq<Field>): Option<seq<BlockId>> {
    if extension == [] then Some([])
    else
      var init, f := extension[..|extension| - 1], extension[|extension| - 1];
      match Unpack(init)
      case None => None
      case Some(ids) =>
        if f.prefix != INTERLINK_VECTOR_PREFIX then Some(ids)
        else if |f.value| != 33 then None
        else Some(ids + Repeat(BlockId(DigestOf(f.value[1..])), f.value[0]))
  }

  method UnpackInterlinks(extension: seq<Field>) returns (r: Option<seq<BlockId>>)
    ensures r == Unpack(extension)
  {
    var res: seq<BlockId> := [];
    for i := 0 to |extension|
      invariant Unpack(extension[..i]) == Some(res)
    {
      assert extension[..i + 1][..i] == extension[..i];
      var f := extension[i];
      if f.prefix == INTERLINK_VECTOR_PREFIX {
        if |f.value| != 33 {
          UnpackFailure(extension, i + 1);
          return None;
        }
        res := res + Repeat(BlockId(DigestOf(f.value[1..])), f.value[0]);
      }
    }
    assert extension[..|extension|] == extension;
    r := Some(res);
  }

  lemma {:induction false} UnpackFailure(extension: seq<Field>, i: nat)
    requires i <= |extension| && Unpack(extension[..i]) == None
    ensures Unpack(extension) == None
    decreases |extension| - i
  {
    if i < |extension| {
      assert extension[..i + 1][..i] == extension[..i];
      UnpackFailure(extension, i + 1);
    } else {
      assert extension[..i] == extension;
    }
  }

  // ----- Round trip -----

  /** The interlink fields of an extension, in order. */
  function InterlinkFields(extension: seq<Field>): seq<Field> {
    if extension == [] then []
    else
      var init, f := extension[..|extension| - 1], extension[|extension| - 1];
      if f.prefix == INTERLINK_VECTOR_PREFIX then InterlinkFields(init) + [f] else InterlinkFields(init)
  }

  /** Unpacking succeeds exactly when every interlink field holds a count and an id. */
  lemma {:induction false} UnpackSucceedsIff(extension: seq<Field>)
    ensures Unpack(extension).Some?
            <==> forall f :: f in extension && f.prefix == INTERLINK_VECTOR_PREFIX ==> |f.value| == 33
  {
    if extension != [] {
      var init, f := extension[..|extension| - 1], extension[|extension| - 1];
      assert extension == init + [f];
      UnpackSucceedsIff(init);
    }
  }

  /** Other fields do not matter. */
  lemma {:induction false} UnpackIgnoresOthers(extension: seq<Field>)
    ensures Unpack(extension) == Unpack(InterlinkFields(extension))
  {
    if extension != [] {
      var init, f := extension[..|extension| - 1], extension[|extension| - 1];
      UnpackIgnoresOthers(init);
      if f.prefix == INTERLINK_VECTOR_PREFIX {
        assert (InterlinkFields(init) + [f])[..|InterlinkFields(init)|] == InterlinkFields(init);
      }
    }
  }

  lemma {:induction false} UnpackConcat(a: seq<Field>, b: seq<Field>)
    requires Unpack(a).Some? && Unpack(b).Some?
    ensures Unpack(a + b) == Some(Unpack(a).value + Unpack(b).value)
  {
    if b == [] {
      assert a + b == a;
      assert Unpack(a).value + [] == Unpack(a).value;
    } else {
      var init, f := b[..|b| - 1], b[|b| - 1];
      UnpackConcat(a, init);
      assert (a + b)[..|a + b| - 1] == a + init;
      if f.prefix == INTERLINK_VECTOR_PREFIX {
        var ids := Repeat(BlockId(DigestOf(f.value[1..])), f.value[0]);
        assert Unpack(a).value + (Unpack(init).value + ids) == Unpack(a).value + Unpack(init).value + ids;
      }
    }
  }

  lemma UnpackOneRun(links: seq<BlockId>, i: nat, e: nat)
    requires i < e <= |links| && i <= U8_MAX && e - i <= U8_MAX
    requires forall t :: i <= t < e ==> links[t] == links[i]
    ensures Unpack([RunField(links, i, e)]) == Some(links[i..e])
  {
    var f := RunField(links, i, e);
    assert [f][..0] == [];
    assert f.value[1..] == BytesOf(links[i].digest);
    DigestRoundTrip(links[i].digest);
    assert [] + Repeat(links[i], e - i) == links[i..e];
  }

  lemma {:induction false} UnpackOfPacked(links: seq<BlockId>, i: nat)
    requires i <= |links| && PackFrom(links, i).Success?
    ensures Unpack(PackFrom(links, i).value) == Some(links[i..])
    decreases |links| - i
  {
    if i < |links| {
      var e := RunEnd(links, i, i + 1);
      UnpackOfPacked(links, e);
      UnpackOneRun(links, i, e);
      UnpackConcat([RunField(links, i, e)], PackFrom(links, e).value);
      assert links[i..e] + links[e..] == links[i..];
    }
  }

  /** Unpacking any extension whose interlink fields are those of a packed vector gives the vector back. */
  lemma PackRoundTrip(links: seq<BlockId>, extension: seq<Field>)
    requires PackFrom(links, 0) == Success(InterlinkFields(extension))
    ensures Unpack(extension) == Some(links)
  {
    UnpackIgnoresOthers(extension);
    UnpackOfPacked(links, 0);
    assert links[0..] == links;
  }

  /** Packed fields carry the interlink prefix and strictly increasing keys, so no two clash. */
  lemma {:induction false} PackedKeysIncrease(links: seq<BlockId>, i: nat)
    requires i <= |links| && PackFrom(links, i).Success?
    ensures
      var fields := PackFrom(links, i).value;
      && (i < |links| ==> fields != [] && fields[0].index == i)
      && (forall j :: 0 <= j < |fields| ==> fields[j].prefix == INTERLINK_VECTOR_PREFIX && fields[j].index >= i && |fields[j].value| == 33)
      && forall j, k :: 0 <= j < k < |fields| ==> fields[j].index < fields[k].index
    decreases |links| - i
  {
    if i < |links| {
      PackedKeysIncrease(links, RunEnd(links, i, i + 1));
    }
  }

  /**
   * The fields of a packed vector, bit for bit: field `j` belongs to a maximal run, is keyed by the position at which the
   * run starts, and holds the length of the run and the bytes of its id, the highest first.
   */
  lemma {:induction false} PackedField(links: seq<BlockId>, i: nat, j: nat) returns (p: nat, e: nat)
    requires (i == |links| || IsRunStart(links, i)) && PackFrom(links, i).Success? && j < |PackFrom(links, i).value|
    ensures i <= p < e <= |links| && IsRunStart(links, p) && (e < |links| ==> links[e] != links[p])
    ensures forall t :: p <= t < e ==> links[t] == links[p]
    ensures
      var f := PackFrom(links, i).value[j];
      && f.prefix == 1 && f.index == p && |f.value| == 33 && f.value[0] == e - p
      && var id := f.value[1..];
         forall b :: 0 <= b < 32 ==> id[b] == links[p].digest / Pow256(31 - b) % 0x100
    decreases |links| - i
  {
    hide Pow256, BytesOf, DigestOf;
    e := RunEnd(links, i, i + 1);
    if j == 0 {
      p := i;
      forall b | 0 <= b < 32
        ensures BytesOf(links[p].digest)[b] == links[p].digest / Pow256(31 - b) % 0x100
      {
        ByteOfDigest(links[p].digest, b);
      }
    } else {
      p, e := PackedField(links, e, j - 1);
    }
  }
}
