/**
 * Device parameters as the fire's cloud API reports them: a numeric kind and
 * a base64-encoded byte blob. This module holds the pure parts of the
 * adapter: the filter and the lookup of the fetch side, the per-parameter
 * rewrite of the write side, and the ordering the write request must have.
 */
module Parameters {
  import opened Wrappers
  import opened Base64

  /** `ParameterId` and `Value` of one entry of the API's parameter list. */
  datatype Parameter = Parameter(id: int, value: string)

  /** The kind whose byte 3 holds the on/off flag. */
  const PrimaryId: int := 321
  /** The secondary flag kind, forced off on every write. */
  const SecondaryId: int := 323
  /** The kinds the adapter keeps from a fetch. */
  const RetainedIds: set<int> := {PrimaryId, SecondaryId}

  /** Offset of the flag byte inside a decoded blob. */
  const FlagOffset: nat := 3

  // ---------------------------------------------------------------------
  // Filtering

  /** The entries whose kind is in `ids`, in their original order. */
  function Select(ps: seq<Parameter>, ids: set<int>): (r: seq<Parameter>)
    ensures |r| <= |ps|
    ensures forall i :: 0 <= i < |r| ==> r[i].id in ids && r[i] in ps
    ensures forall i :: 0 <= i < |ps| && ps[i].id in ids ==> ps[i] in r
    decreases |ps|
  {
    if ps == [] then []
    else
      var last := ps[|ps| - 1];
      Select(ps[..|ps| - 1], ids) + (if last.id in ids then [last] else [])
  }

  /** The entries of kind `k`, in their original order. */
  function OfId(ps: seq<Parameter>, k: int): seq<Parameter>
  {
    Select(ps, {k})
  }

  /** The list the adapter keeps after a fetch. */
  function Retained(ps: seq<Parameter>): seq<Parameter>
  {
    Select(ps, RetainedIds)
  }

  /**
   * The positions of the entries whose kind is in `ids`, strictly ascending;
   * a position is listed exactly when its entry's kind is in `ids`.
   */
  ghost function SelectedPositions(ps: seq<Parameter>, ids: set<int>): (pos: seq<nat>)
    ensures forall j :: 0 <= j < |pos| ==> pos[j] < |ps|
    ensures forall j1, j2 :: 0 <= j1 < j2 < |pos| ==> pos[j1] < pos[j2]
    ensures forall i :: 0 <= i < |ps| ==> (ps[i].id in ids <==> i in pos)
    decreases |ps|
  {
    if ps == [] then []
    else
      var n := |ps| - 1;
      var pos0 := SelectedPositions(ps[..n], ids);
      assert forall i :: 0 <= i < n ==> ps[..n][i] == ps[i];
      pos0 + (if ps[n].id in ids then [n] else [])
  }

  /**
   * `Select` picks exactly the entries whose kind is in `ids`, keeping their
   * order: its result is `ps` read at the selected positions.
   */
  lemma {:induction false} SelectIsSubsequence(ps: seq<Parameter>, ids: set<int>)
    ensures var pos := SelectedPositions(ps, ids);
      && |Select(ps, ids)| == |pos|
      && (forall j :: 0 <= j < |pos| ==> Select(ps, ids)[j] == ps[pos[j]])
    decreases |ps|
  {
    if ps != [] {
      var n := |ps| - 1;
      var init := ps[..n];
      SelectIsSubsequence(init, ids);
      var sel0, pos0 := Select(init, ids), SelectedPositions(init, ids);
      assert forall j :: 0 <= j < |pos0| ==> pos0[j] < n && sel0[j] == ps[pos0[j]];
      SubsequenceSnoc(ps, sel0, pos0, ps[n].id in ids);
    }
  }

  /** Reading `ps` at ascending positions extends by its last entry, or not. */
  lemma SubsequenceSnoc(ps: seq<Parameter>, sel0: seq<Parameter>, pos0: seq<nat>, keep: bool)
    requires ps != [] && |sel0| == |pos0|
    requires forall j :: 0 <= j < |pos0| ==> pos0[j] < |ps| - 1 && sel0[j] == ps[pos0[j]]
    ensures var n := |ps| - 1;
      var sel, pos := sel0 + (if keep then [ps[n]] else []), pos0 + (if keep then [n] else []);
      |sel| == |pos| && forall j :: 0 <= j < |pos| ==> sel[j] == ps[pos[j]]
  {
  }

  /** Filtering distributes over concatenation. */
  lemma {:induction false} SelectAppend(s: seq<Parameter>, t: seq<Parameter>, ids: set<int>)
    ensures Select(s + t, ids) == Select(s, ids) + Select(t, ids)
    decreases |t|
  {
    if t != [] {
      var t0 := t[..|t| - 1];
      assert (s + t)[..|s + t| - 1] == s + t0;
      SelectAppend(s, t0, ids);
    } else {
      assert s + t == s;
    }
  }

  // ---------------------------------------------------------------------
  // Lookup

  /** The position of the first entry of kind `k`, as `Array.prototype.find` locates it. */
  function Find(ps: seq<Parameter>, k: int): (r: Option<nat>)
    ensures r.Some? ==> r.value < |ps| && ps[r.value].id == k
    ensures r.Some? ==> forall j :: 0 <= j < r.value ==> ps[j].id != k
    ensures r.None? ==> forall j :: 0 <= j < |ps| ==> ps[j].id != k
    decreases |ps|
  {
    if ps == [] then None
    else if ps[0].id == k then Some(0)
    else
      match Find(ps[1..], k)
      case None => None
      case Some(i) => Some(i + 1)
  }

  // ---------------------------------------------------------------------
  // The flag byte

  /** Reading the flag: `bytes[3]` is `undefined`, hence off, for a blob of three bytes or fewer. */
  predicate FlagSet(bytes: seq<byte>)
  {
    |bytes| > FlagOffset && bytes[FlagOffset] != 0
  }

  /** The byte written for a requested on/off value. */
  function FlagByte(value: bool): byte
  {
    if value then 1 else 0
  }

  /**
   * Writing the flag: byte 3 becomes `b` and nothing else changes; as for a
   * typed array, a write past the end of a shorter blob is dropped.
   */
  function WithFlag(bytes: seq<byte>, b: byte): (r: seq<byte>)
    ensures |r| == |bytes|
    ensures |bytes| > FlagOffset ==> r[FlagOffset] == b
    ensures forall i :: 0 <= i < |bytes| && i != FlagOffset ==> r[i] == bytes[i]
  {
    if |bytes| > FlagOffset then bytes[FlagOffset := b] else bytes
  }

  /** A blob of three bytes or fewer is left as it was. */
  lemma WithFlagShort(bytes: seq<byte>, b: byte)
    requires |bytes| <= FlagOffset
    ensures WithFlag(bytes, b) == bytes
  {
  }

  /** After writing the flag for `value`, reading it back gives `value` when the blob is long enough. */
  lemma FlagReadsBack(bytes: seq<byte>, value: bool)
    ensures FlagSet(WithFlag(bytes, FlagByte(value))) == (value && |bytes| > FlagOffset)
  {
  }

  // ---------------------------------------------------------------------
  // The write-side rewrite of one parameter

  /** The entries the write decodes (kinds 321 and 323) must carry canonical base64. */
  predicate Decodable(p: Parameter)
  {
    p.id in RetainedIds ==> IsCanonical(p.value)
  }

  /** The decoded blob of a canonical value. */
  function Blob(s: string): seq<byte>
    requires IsCanonical(s)
  {
    Decode(s).value
  }

  /** The blob of `s` with its flag byte written and re-encoded. */
  function Reflag(s: string, b: byte): string
    requires IsCanonical(s)
  {
    Encode(WithFlag(Blob(s), b))
  }

  /** What the write sends for one retained parameter. */
  function Rewritten(p: Parameter, value: bool): (q: Parameter)
    requires Decodable(p)
    ensures q.id == p.id
  {
    if p.id == PrimaryId then Parameter(PrimaryId, Reflag(p.value, FlagByte(value)))
    else if p.id == SecondaryId then Parameter(SecondaryId, Reflag(p.value, 0))
    else p
  }

  /**
   * The rewrite at the level of bytes: a 321 blob decodes to the old blob with
   * byte 3 set to the requested flag; a 323 blob to the old blob with byte 3
   * cleared; any other entry is passed through as it is.
   */
  lemma RewrittenBlob(p: Parameter, value: bool)
    requires Decodable(p)
    ensures p.id == PrimaryId ==>
      Decode(Rewritten(p, value).value) == Some(WithFlag(Blob(p.value), FlagByte(value)))
    ensures p.id == SecondaryId ==>
      Decode(Rewritten(p, value).value) == Some(WithFlag(Blob(p.value), 0))
    ensures p.id !in RetainedIds ==> Rewritten(p, value) == p
  {
    if p.id in RetainedIds {
      DecodeEncode(WithFlag(Blob(p.value), if p.id == PrimaryId then FlagByte(value) else 0));
    }
  }

  /** A rewritten 321 entry reads back, on the next fetch, as the requested value. */
  lemma RewrittenPrimaryReadsBack(p: Parameter, value: bool)
    requires p.id == PrimaryId && IsCanonical(p.value) && |Blob(p.value)| > FlagOffset
    ensures IsCanonical(Rewritten(p, value).value)
    ensures FlagSet(Blob(Rewritten(p, value).value)) == value
  {
    RewrittenBlob(p, value);
    FlagReadsBack(Blob(p.value), value);
  }

  /** The rewrite of every entry of a list, in order (the `map` of the write). */
  function RewrittenAll(ps: seq<Parameter>, value: bool): (r: seq<Parameter>)
    requires forall i :: 0 <= i < |ps| ==> Decodable(ps[i])
  {
    seq(|ps|, i requires 0 <= i < |ps| => Rewritten(ps[i], value))
  }

  // ---------------------------------------------------------------------
  // Ordering of the write request

  /** The kinds of a list, in order. */
  function Ids(ps: seq<Parameter>): (r: seq<int>)
  {
    seq(|ps|, i requires 0 <= i < |ps| => ps[i].id)
  }

  predicate SortedById(ps: seq<Parameter>)
  {
    forall i, j :: 0 <= i < j < |ps| ==> ps[i].id <= ps[j].id
  }

  /**
   * `s` and `t` hold, kind by kind, the same entries in the same order: what
   * a stable sort by kind preserves.
   */
  ghost predicate SameIdOrder(s: seq<Parameter>, t: seq<Parameter>)
  {
    forall k :: OfId(s, k) == OfId(t, k)
  }

  /** `s` with the adjacent entries at `j - 1` and `j` exchanged. */
  function SwapAdjacent(s: seq<Parameter>, j: nat): (r: seq<Parameter>)
    requires 0 < j < |s|
  {
    s[j - 1 := s[j]][j := s[j - 1]]
  }

  /** Exchanging neighbours of different kinds keeps every kind's order. */
  lemma SwapKeepsIdOrder(s: seq<Parameter>, j: nat)
    requires 0 < j < |s| && s[j - 1].id != s[j].id
    ensures SameIdOrder(SwapAdjacent(s, j), s)
  {
    var x, y := s[j - 1], s[j];
    var pre, post := s[..j - 1], s[j + 1..];
    assert s == pre + [x, y] + post;
    assert SwapAdjacent(s, j) == pre + [y, x] + post;
    forall k
      ensures OfId(SwapAdjacent(s, j), k) == OfId(s, k)
    {
      SelectAppend(pre + [x, y], post, {k});
      SelectAppend(pre, [x, y], {k});
      SelectAppend(pre + [y, x], post, {k});
      SelectAppend(pre, [y, x], {k});
      assert [x, y][..1] == [x] && [y, x][..1] == [y];
      assert OfId([x, y], k) == OfId([y, x], k);
    }
  }

  /** Occurrences of an entry are counted among the entries of its kind alone. */
  lemma {:induction false} CountWithinKind(s: seq<Parameter>, p: Parameter)
    ensures multiset(s)[p] == multiset(OfId(s, p.id))[p]
    decreases |s|
  {
    if s != [] {
      var init := s[..|s| - 1];
      CountWithinKind(init, p);
      assert s == init + [s[|s| - 1]];
    }
  }

  /** The number of entries of kind `k` is how often `k` occurs among the kinds. */
  lemma {:induction false} CountOfKind(s: seq<Parameter>, k: int)
    ensures multiset(Ids(s))[k] == |OfId(s, k)|
    decreases |s|
  {
    if s != [] {
      var init := s[..|s| - 1];
      CountOfKind(init, k);
      assert s == init + [s[|s| - 1]];
      assert Ids(s) == Ids(init) + [s[|s| - 1].id];
    }
  }

  /**
   * Keeping every kind's order is a permutation: the same entries, as often,
   * so also the same length and the same kinds.
   */
  lemma SameIdOrderPermutes(s: seq<Parameter>, t: seq<Parameter>)
    requires SameIdOrder(s, t)
    ensures multiset(s) == multiset(t)
    ensures |s| == |t|
    ensures multiset(Ids(s)) == multiset(Ids(t))
  {
    forall p
      ensures multiset(s)[p] == multiset(t)[p]
    {
      CountWithinKind(s, p);
      CountWithinKind(t, p);
      assert OfId(s, p.id) == OfId(t, p.id);
    }
    assert multiset(s) == multiset(t);
    assert |multiset(s)| == |s| && |multiset(t)| == |t|;
    forall k
      ensures multiset(Ids(s))[k] == multiset(Ids(t))[k]
    {
      CountOfKind(s, k);
      CountOfKind(t, k);
      assert OfId(s, k) == OfId(t, k);
    }
  }

  /** The rewrite keeps every kind in place. */
  lemma RewrittenAllIds(ps: seq<Parameter>, value: bool)
    requires forall i :: 0 <= i < |ps| ==> Decodable(ps[i])
    ensures Ids(RewrittenAll(ps, value)) == Ids(ps)
  {
  }

  /**
   * The list a write sends for `params`: each entry rewritten, then sorted by
   * kind with entries of one kind kept in their original order.
   */
  ghost predicate IsWriteRequest(sent: seq<Parameter>, params: seq<Parameter>, value: bool)
    requires forall i :: 0 <= i < |params| ==> Decodable(params[i])
  {
    SortedById(sent) && SameIdOrder(sent, RewrittenAll(params, value))
  }

  /**
   * A write request has as many entries as `params`, the same kinds as often,
   * ascending; each of its entries is the rewrite of an entry of `params`.
   */
  lemma WriteRequestShape(sent: seq<Parameter>, params: seq<Parameter>, value: bool)
    requires forall i :: 0 <= i < |params| ==> Decodable(params[i])
    requires IsWriteRequest(sent, params, value)
    ensures |sent| == |params|
    ensures multiset(Ids(sent)) == multiset(Ids(params))
    ensures forall i, j :: 0 <= i < j < |sent| ==> sent[i].id <= sent[j].id
    ensures forall i :: 0 <= i < |sent| ==>
      exists j :: 0 <= j < |params| && sent[i] == Rewritten(params[j], value)
  {
    var mapped := RewrittenAll(params, value);
    SameIdOrderPermutes(sent, mapped);
    RewrittenAllIds(params, value);
    forall i | 0 <= i < |sent|
      ensures exists j :: 0 <= j < |params| && sent[i] == Rewritten(params[j], value)
    {
      assert sent[i] in multiset(sent);
      assert sent[i] in multiset(mapped);
      var j :| 0 <= j < |mapped| && mapped[j] == sent[i];
      assert sent[i] == Rewritten(params[j], value);
    }
  }

  /** Two sorted lists with the same kinds end in the same kind. */
  lemma LastKindsAgree(s: seq<Parameter>, t: seq<Parameter>)
    requires SortedById(s) && SortedById(t) && s != [] && t != []
    requires multiset(Ids(s)) == multiset(Ids(t))
    ensures s[|s| - 1].id == t[|t| - 1].id
  {
    var x, y := s[|s| - 1], t[|t| - 1];
    assert Ids(s)[|s| - 1] == x.id && Ids(t)[|t| - 1] == y.id;
    assert x.id in multiset(Ids(t));
    assert y.id in multiset(Ids(s));
    var jt :| 0 <= jt < |t| && Ids(t)[jt] == x.id;
    var js :| 0 <= js < |s| && Ids(s)[js] == y.id;
  }

  /** Equal per-kind orders that end in the same kind end in the same entry, and agree before it. */
  lemma DropLastKeepsIdOrder(s: seq<Parameter>, t: seq<Parameter>)
    requires s != [] && t != [] && SameIdOrder(s, t)
    requires s[|s| - 1].id == t[|t| - 1].id
    ensures s[|s| - 1] == t[|t| - 1]
    ensures SameIdOrder(s[..|s| - 1], t[..|t| - 1])
  {
    var x, y := s[|s| - 1], t[|t| - 1];
    var s0, t0 := s[..|s| - 1], t[..|t| - 1];
    forall k
      ensures OfId(s0, k) == OfId(t0, k)
    {
      assert OfId(s, k) == OfId(s0, k) + (if x.id == k then [x] else []);
      assert OfId(t, k) == OfId(t0, k) + (if y.id == k then [y] else []);
      assert OfId(s, k) == OfId(t, k);
      if x.id == k {
        assert OfId(s, k)[..|OfId(s, k)| - 1] == OfId(s0, k);
        assert OfId(t, k)[..|OfId(t, k)| - 1] == OfId(t0, k);
      } else {
        assert OfId(s, k) == OfId(s0, k) + [] == OfId(s0, k);
        assert OfId(t, k) == OfId(t0, k) + [] == OfId(t0, k);
      }
    }
    assert OfId(s, x.id) == OfId(s0, x.id) + [x];
    assert OfId(t, x.id) == OfId(t0, x.id) + [y];
    assert OfId(s, x.id) == OfId(t, x.id);
    assert x == OfId(s, x.id)[|OfId(s, x.id)| - 1];
    assert y == OfId(t, x.id)[|OfId(t, x.id)| - 1];
  }

  /** Sorted by kind and in the same per-kind order: there is only one such list. */
  lemma {:induction false} SortedStableUnique(s: seq<Parameter>, t: seq<Parameter>)
    requires SortedById(s) && SortedById(t) && SameIdOrder(s, t)
    ensures s == t
    decreases |s|
  {
    SameIdOrderPermutes(s, t);
    if s != [] {
      var s0, t0 := s[..|s| - 1], t[..|t| - 1];
      LastKindsAgree(s, t);
      DropLastKeepsIdOrder(s, t);
      SortedStableUnique(s0, t0);
      assert s == s0 + [s[|s| - 1]] && t == t0 + [t[|t| - 1]];
    }
  }

  /** The list a write sends is determined by `params` and `value`. */
  lemma WriteRequestUnique(s: seq<Parameter>, t: seq<Parameter>, params: seq<Parameter>, value: bool)
    requires forall i :: 0 <= i < |params| ==> Decodable(params[i])
    requires IsWriteRequest(s, params, value) && IsWriteRequest(t, params, value)
    ensures s == t
  {
    SortedStableUnique(s, t);
  }

  /** A retained list `[323, 321]` is sent as `[321, 323]`, each entry rewritten. */
  lemma WriteOrderExample(p323: Parameter, p321: Parameter, sent: seq<Parameter>, value: bool)
    requires p323.id == SecondaryId && p321.id == PrimaryId
    requires Decodable(p323) && Decodable(p321)
    requires IsWriteRequest(sent, [p323, p321], value)
    ensures sent == [Rewritten(p321, value), Rewritten(p323, value)]
  {
    var mapped := RewrittenAll([p323, p321], value);
    var expected := [Rewritten(p321, value), Rewritten(p323, value)];
    assert mapped == [Rewritten(p323, value), Rewritten(p321, value)];
    assert SwapAdjacent(mapped, 1) == expected;
    SwapKeepsIdOrder(mapped, 1);
    SortedStableUnique(sent, expected);
  }

  /**
   * The flags a write sends: every 321 entry decodes to a blob whose byte 3
   * is the requested flag, and every 323 entry to one whose byte 3 is zero
   * (for blobs long enough to have a byte 3).
   */
  lemma WriteRequestFlags(sent: seq<Parameter>, params: seq<Parameter>, value: bool)
    requires forall i :: 0 <= i < |params| ==> Decodable(params[i])
    requires IsWriteRequest(sent, params, value)
    ensures forall i :: 0 <= i < |sent| && sent[i].id in RetainedIds ==> IsCanonical(sent[i].value)
    ensures forall i :: 0 <= i < |sent| && sent[i].id == PrimaryId ==>
      |Blob(sent[i].value)| > FlagOffset ==> Blob(sent[i].value)[FlagOffset] == FlagByte(value)
    ensures forall i :: 0 <= i < |sent| && sent[i].id == SecondaryId ==>
      |Blob(sent[i].value)| > FlagOffset ==> Blob(sent[i].value)[FlagOffset] == 0
  {
    WriteRequestShape(sent, params, value);
    forall i | 0 <= i < |sent| && sent[i].id in RetainedIds
      ensures IsCanonical(sent[i].value)
      ensures sent[i].id == PrimaryId && |Blob(sent[i].value)| > FlagOffset ==>
        Blob(sent[i].value)[FlagOffset] == FlagByte(value)
      ensures sent[i].id == SecondaryId && |Blob(sent[i].value)| > FlagOffset ==>
        Blob(sent[i].value)[FlagOffset] == 0
    {
      var j :| 0 <= j < |params| && sent[i] == Rewritten(params[j], value);
      RewrittenBlob(params[j], value);
    }
  }
}
