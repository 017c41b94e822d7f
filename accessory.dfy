/**
 * The switch accessory: the cached on/off `state` and the retained parameter
 * list `params`, refreshed by a fetch and used by a write. The HTTP calls are
 * not modelled; their responses are inputs.
 */
module Accessory {
  import opened Wrappers
  import opened Base64
  import opened Parameters
  import opened WriteRequest

  /** The parsed reply of `GetFireOverview`: with or without a `WifiFireOverview` object. */
  datatype FetchResponse = Overview(parameters: seq<Parameter>) | Malformed

  /** The reply of `WriteWifiParameters`; a missing `IsException` field reads as false. */
  datatype WriteResponse = WriteResponse(isException: bool)

  /** How a fetch ended. */
  datatype UpdateOutcome =
    | Refreshed        // the state was read from the first 321 entry
    | MissingPrimary   // no 321 entry: the lookup failed after the list was replaced
    | NoOverview       // no overview object: logged, nothing changed

  /** An entry the accessory may keep: a flag kind with a canonical blob. */
  predicate Keepable(p: Parameter)
  {
    p.id in RetainedIds && IsCanonical(p.value)
  }

  /** The response's flag entries carry canonical base64 (the only input this model decodes). */
  predicate DecodableResponse(response: FetchResponse)
  {
    response.Overview? ==>
      forall i :: 0 <= i < |response.parameters| ==> Decodable(response.parameters[i])
  }

  class OptiflameAccessoryPlugin {
    var state: bool
    var params: seq<Parameter>

    /** The retained list holds only kinds 321 and 323, each with a decodable blob. */
    ghost predicate Valid()
      reads this
    {
      forall i :: 0 <= i < |params| ==> Keepable(params[i])
    }

    constructor ()
      ensures Valid()
      ensures state == false && params == []
    {
      state := false;
      params := [];
    }

    /**
     * A fetch. With an overview, `params` becomes the 321 and 323 entries of
     * the response in their order, and `state` becomes the flag of the first
     * 321 entry; without a 321 entry the lookup fails after `params` was
     * replaced and `state` keeps its value. Without an overview nothing changes.
     */
    method Update(response: FetchResponse) returns (outcome: UpdateOutcome)
      requires Valid()
      requires DecodableResponse(response)
      modifies this
      ensures Valid()
      ensures response.Malformed? ==>
        outcome == NoOverview && state == old(state) && params == old(params)
      ensures response.Overview? ==> params == Retained(response.parameters)
      ensures response.Overview? && Find(response.parameters, PrimaryId).None? ==>
        outcome == MissingPrimary && state == old(state)
      ensures response.Overview? && Find(response.parameters, PrimaryId).Some? ==>
        var p := response.parameters[Find(response.parameters, PrimaryId).value];
        outcome == Refreshed && IsCanonical(p.value) && state == FlagSet(Blob(p.value))
    {
      if response.Malformed? {
        outcome := NoOverview;
        return;
      }
      var ps := response.parameters;
      params := Retained(ps);
      var found := Find(ps, PrimaryId);
      if found.None? {
        outcome := MissingPrimary;
        return;
      }
      var bytes := Decode(ps[found.value].value).value;
      state := FlagSet(bytes);
      outcome := Refreshed;
    }

    /** The read handler: the cached state, with no effect. */
    method GetOnHandler() returns (on: bool)
      ensures on == state
    {
      on := state;
    }

    /**
     * A write of `value`. The list sent is the retained list rewritten and
     * sorted by kind; `state` takes `value` unless the reply reports an
     * exception; `params` is never changed.
     */
    method SetOnHandler(value: bool, response: WriteResponse) returns (sent: seq<Parameter>)
      requires Valid()
      modifies this
      ensures Valid()
      ensures params == old(params)
      ensures IsWriteRequest(sent, params, value)
      ensures state == if response.isException then old(state) else value
    {
      sent := BuildWriteParameters(params, value);
      if !response.isException {
        state := value;
      }
    }
  }

  /**
   * A write followed by a fetch that reports back the list just written reads
   * the requested value, when the 321 blob is long enough to have a byte 3.
   */
  lemma WrittenStateReadsBack(sent: seq<Parameter>, params: seq<Parameter>, value: bool)
    requires forall i :: 0 <= i < |params| ==> Decodable(params[i])
    requires IsWriteRequest(sent, params, value)
    ensures DecodableResponse(Overview(sent))
    ensures Find(sent, PrimaryId).Some? ==>
      var p := sent[Find(sent, PrimaryId).value];
      IsCanonical(p.value) && (|Blob(p.value)| > FlagOffset ==> FlagSet(Blob(p.value)) == value)
  {
    WriteRequestFlags(sent, params, value);
  }

  /** A fetch, then writes, on concrete replies. */
  method FetchAndWriteScenario()
  {
    var on321, off323 := Encode([0, 0, 0, 1]), Encode([0, 0, 0, 0]);
    DecodeEncode([0, 0, 0, 1]);
    DecodeEncode([0, 0, 0, 0]);
    var p321, p323 := Parameter(PrimaryId, on321), Parameter(SecondaryId, off323);

    var plugin := new OptiflameAccessoryPlugin();
    var on := plugin.GetOnHandler();
    assert !on;

    // An overview whose 321 blob has byte 3 set reads as on.
    var reply := Overview([p323, p321]);
    var outcome := plugin.Update(reply);
    assert Find(reply.parameters, PrimaryId) == Some(1);
    assert outcome == Refreshed && plugin.state;

    // A rejected write leaves the state as it was.
    var sent := plugin.SetOnHandler(false, WriteResponse(true));
    assert plugin.state;

    // An accepted write commits the requested value.
    sent := plugin.SetOnHandler(false, WriteResponse(false));
    assert !plugin.state;

    // A reply without an overview changes nothing.
    outcome := plugin.Update(Malformed);
    assert outcome == NoOverview && !plugin.state;
  }

  /** Fetches of an overview with the flag clear, and of one without a 321 entry. */
  method FetchOffScenario()
  {
    var off := Encode([0, 0, 0, 0]);
    DecodeEncode([0, 0, 0, 0]);
    var p321, p323 := Parameter(PrimaryId, off), Parameter(SecondaryId, off);

    var plugin := new OptiflameAccessoryPlugin();
    // An accepted write turns the switch on.
    var sent := plugin.SetOnHandler(true, WriteResponse(false));
    assert plugin.state;

    // An overview whose only 321 blob has byte 3 clear reads as off.
    var outcome := plugin.Update(Overview([p321]));
    assert Find([p321], PrimaryId) == Some(0);
    assert outcome == Refreshed && !plugin.state;

    // Without a 321 entry the list is replaced and the state kept.
    sent := plugin.SetOnHandler(true, WriteResponse(false));
    assert plugin.state;
    outcome := plugin.Update(Overview([p323]));
    assert Select([p323][..0], RetainedIds) == [];
    assert outcome == MissingPrimary && plugin.state && plugin.params == [p323];
  }

  /** The retained list [323, 321] is written as [321, 323]. */
  method WriteOrderScenario()
  {
    var off := Encode([0, 0, 0, 0]);
    DecodeEncode([0, 0, 0, 0]);
    var p321, p323 := Parameter(PrimaryId, off), Parameter(SecondaryId, off);

    var plugin := new OptiflameAccessoryPlugin();
    var outcome := plugin.Update(Overview([p323, p321]));
    assert Select([p323, p321][..1], RetainedIds) == [p323];
    assert plugin.params == [p323, p321];
    var sent := plugin.SetOnHandler(true, WriteResponse(false));
    WriteOrderExample(p323, p321, sent, true);
    assert sent == [Rewritten(p321, true), Rewritten(p323, true)];
    assert plugin.state;
  }
}
