/**
 * Building the parameter list of a write, as the source does it: each blob
 * is decoded into a fresh buffer, its flag byte is overwritten in place, the
 * buffer is re-encoded, and the mapped array is then sorted in place by kind.
 */
module WriteRequest {
  import opened Base64
  import opened Parameters

  /** `bytes[3] = b` on a typed array: dropped when the buffer is shorter than four bytes. */
  method SetFlagByte(bytes: array<byte>, b: byte)
    modifies bytes
    ensures bytes[..] == WithFlag(old(bytes[..]), b)
  {
    if bytes.Length > FlagOffset {
      bytes[FlagOffset] := b;
    }
  }

  /** Decodes `value` into a buffer, writes its flag byte and encodes the buffer again. */
  method ReencodeWithFlag(value: string, b: byte) returns (s: string)
    requires IsCanonical(value)
    ensures s == Reflag(value, b)
  {
    var decoded := Decode(value).value;
    var bytes := new byte[|decoded|](i requires 0 <= i < |decoded| => decoded[i]);
    assert bytes[..] == decoded;
    SetFlagByte(bytes, b);
    s := Encode(bytes[..]);
  }

  /** The callback of the write's `map`. */
  method RewriteParameter(p: Parameter, value: bool) returns (q: Parameter)
    requires Decodable(p)
    ensures q == Rewritten(p, value)
  {
    if p.id == PrimaryId {
      var s := ReencodeWithFlag(p.value, FlagByte(value));
      q := Parameter(PrimaryId, s);
    } else if p.id == SecondaryId {
      var s := ReencodeWithFlag(p.value, 0);
      q := Parameter(SecondaryId, s);
    } else {
      q := p;
    }
  }

  /**
   * `sort((a, b) => a.ParameterId - b.ParameterId)`: ascending by kind, and
   * stable, as `Array.prototype.sort` is. Insertion by adjacent exchanges;
   * an entry moves left only past entries of a strictly larger kind.
   */
  method SortById(a: array<Parameter>)
    modifies a
    ensures SortedById(a[..])
    ensures SameIdOrder(a[..], old(a[..]))
  {
    if a.Length == 0 {
      return;
    }
    ghost var original := a[..];
    var i := 1;
    while i < a.Length
      invariant 1 <= i <= a.Length
      invariant SortedById(a[..i])
      invariant SameIdOrder(a[..], original)
    {
      var j := i;
      while j > 0 && a[j - 1].id > a[j].id
        invariant 0 <= j <= i
        invariant forall p, q :: 0 <= p < q <= i && q != j ==> a[p].id <= a[q].id
        invariant SameIdOrder(a[..], original)
      {
        ghost var before := a[..];
        a[j - 1], a[j] := a[j], a[j - 1];
        assert a[..] == SwapAdjacent(before, j);
        SwapKeepsIdOrder(before, j);
        j := j - 1;
      }
      i := i + 1;
    }
  }

  /** The `map` and `sort` of the write: the list sent to the API. */
  method BuildWriteParameters(params: seq<Parameter>, value: bool) returns (sent: seq<Parameter>)
    requires forall i :: 0 <= i < |params| ==> Decodable(params[i])
    ensures IsWriteRequest(sent, params, value)
  {
    var a := new Parameter[|params|];
    for i := 0 to |params|
      invariant forall k :: 0 <= k < i ==> a[k] == Rewritten(params[k], value)
    {
      var q := RewriteParameter(params[i], value);
      a[i] := q;
    }
    assert a[..] == RewrittenAll(params, value);
    SortById(a);
    sent := a[..];
  }
}
