/**
 * The draw state behind the server's request handlers: the registered
 * participants, the drawn giver-to-receiver results and the drawn flag.
 * The JSON file that holds this state is abstracted to the fields of one
 * object; each handler that writes the file takes a flag saying whether the
 * write succeeds, and a failed write leaves the stored state as it was.
 */
module SecretSanta {
  import opened Wrappers
  import opened Derangement

  type Name = string

  /** Why a handler refused the request. */
  datatype Reason =
    | MissingName         // no name, or only whitespace
    | AlreadyRegistered   // the name is already a participant
    | AlreadyDrawn        // deleting after the draw
    | NotRegistered       // the name is not a participant
    | TooFewParticipants  // drawing with fewer than two participants
    | DrawFailed          // the generator gave up
    | NotDrawn            // asking for a result before the draw
    | WriteFailed         // the state could not be stored

  datatype Outcome = Pass | Fail(reason: Reason)

  /** The answer of the result lookup: the receiver (absent for a name registered after the draw) or a refusal. */
  datatype Answer = Receiver(receiver: Option<Name>) | Refused(reason: Reason)

  /** The characters JavaScript's `String.prototype.trim` removes: white space and line terminators. */
  predicate IsTrimmed(c: char) {
    var u := c as int;
    u == 0x09 || u == 0x0A || u == 0x0B || u == 0x0C || u == 0x0D || u == 0x20 ||
    u == 0xA0 || u == 0x1680 || (0x2000 <= u <= 0x200A) || u == 0x2028 || u == 0x2029 ||
    u == 0x202F || u == 0x205F || u == 0x3000 || u == 0xFEFF
  }

  /** `name.trim() === ''`: the name is empty or made only of trimmed characters. */
  predicate IsBlank(name: Name) {
    forall i :: 0 <= i < |name| ==> IsTrimmed(name[i])
  }

  /** `results` pairs every giver `givers[k]` with `receivers[k]` and has no other keys. */
  predicate Pairs(results: map<Name, Name>, givers: seq<Name>, receivers: seq<Name>) {
    && |receivers| == |givers|
    && results.Keys == (set k | 0 <= k < |givers| :: givers[k])
    && forall k :: 0 <= k < |givers| ==> givers[k] in results && results[givers[k]] == receivers[k]
  }

  /**
   * A valid drawing: every giver gives to another giver, nobody to
   * themself, no two givers to each other, and nobody receives twice.
   */
  predicate IsAssignment(results: map<Name, Name>) {
    && results.Values <= results.Keys
    && (forall g :: g in results ==> results[g] != g)
    && (forall g, h :: g in results && h in results && results[g] == h ==> results[h] != g)
    && (forall g, h :: g in results && h in results && g != h ==> results[g] != results[h])
  }

  /** What storing the pair of giver `givers[k]` contributes to a valid drawing. */
  lemma PairAt(results: map<Name, Name>, givers: seq<Name>, receivers: seq<Name>, k: nat)
    requires IsPermutationOf(receivers, givers) && NoSelfMatch(givers, receivers) && NoMutualPair(givers, receivers)
    requires Pairs(results, givers, receivers) && k < |givers|
    ensures results[givers[k]] in results && results[givers[k]] != givers[k]
    ensures results[results[givers[k]]] != givers[k]
  {
    assert receivers[k] in multiset(receivers);
    var j :| 0 <= j < |givers| && givers[j] == receivers[k];
    assert results[givers[j]] == receivers[j];
  }

  /** Every stored pair leads to another giver, who does not give back. */
  lemma PairsClosed(results: map<Name, Name>, givers: seq<Name>, receivers: seq<Name>)
    requires IsPermutationOf(receivers, givers) && NoSelfMatch(givers, receivers) && NoMutualPair(givers, receivers)
    requires Pairs(results, givers, receivers)
    ensures results.Values <= results.Keys
    ensures forall g :: g in results ==> results[g] != g
    ensures forall g, h :: g in results && h in results && results[g] == h ==> results[h] != g
  {
    forall g | g in results
      ensures results[g] in results && results[g] != g && results[results[g]] != g
    {
      assert g in (set k | 0 <= k < |givers| :: givers[k]);
      var k :| 0 <= k < |givers| && givers[k] == g;
      PairAt(results, givers, receivers, k);
    }
  }

  /** Distinct receivers stored for distinct givers keep the drawing one-to-one. */
  lemma PairsInjective(results: map<Name, Name>, givers: seq<Name>, receivers: seq<Name>)
    requires Distinct(receivers) && Pairs(results, givers, receivers)
    ensures forall g, h :: g in results && h in results && g != h ==> results[g] != results[h]
  {
  }

  /**
   * Storing the generator's accepted arrangement of distinct names, giver by
   * giver, yields a valid drawing.
   */
  lemma PairingIsAssignment(results: map<Name, Name>, givers: seq<Name>, receivers: seq<Name>)
    requires Distinct(givers) && IsPermutationOf(receivers, givers) && Acceptable(givers, receivers)
    requires Pairs(results, givers, receivers)
    ensures IsAssignment(results)
  {
    AcceptableIffDerangement(givers, receivers);
    PermutationKeepsDistinct(givers, receivers);
    PairsClosed(results, givers, receivers);
    PairsInjective(results, givers, receivers);
  }

  /** Appending a name that is not yet registered keeps the names distinct. */
  lemma AppendKeepsDistinct(s: seq<Name>, x: Name)
    requires Distinct(s) && x !in s
    ensures Distinct(s + [x])
  {
  }

  /**
   * Cutting position `k` out of a list of distinct names removes exactly
   * that name and keeps the others, distinct and in order.
   */
  lemma RemoveAt(s: seq<Name>, k: nat)
    requires Distinct(s) && k < |s|
    ensures Distinct(s[..k] + s[k + 1..])
    ensures s[k] !in s[..k] + s[k + 1..]
    ensures multiset(s[..k] + s[k + 1..]) == multiset(s) - multiset{s[k]}
  {
    var r := s[..k] + s[k + 1..];
    forall i | 0 <= i < |r| ensures r[i] == (if i < k then s[i] else s[i + 1]) { }
    assert s == s[..k] + [s[k]] + s[k + 1..];
  }

  /** The stored draw state: the participant list, the giver-to-receiver results and the drawn flag. */
  class Store {
    var participants: seq<Name>
    var results: map<Name, Name>
    var isDrawn: bool

    /**
     * Names are distinct (so the generator's indexOf finds every giver at
     * their own position); results exist only after a draw, belong to
     * registered participants and form a valid drawing.
     */
    ghost predicate Valid()
      reads this
    {
      && Distinct(participants)
      && (!isDrawn ==> results == map[])
      && (forall g :: g in results ==> g in participants)
      && IsAssignment(results)
    }

    /** The state written when no data file exists yet. */
    constructor ()
      ensures Valid()
      ensures participants == [] && results == map[] && !isDrawn
    {
      participants := [];
      results := map[];
      isDrawn := false;
    }

    /**
     * Registration: a missing or blank name and an already registered name
     * are refused; otherwise the name, untrimmed, is appended at the end.
     */
    method Register(name: Option<Name>, writeSucceeds: bool) returns (outcome: Outcome)
      requires Valid()
      modifies this
      ensures Valid()
      ensures outcome ==
        if name.None? || IsBlank(name.value) then Fail(MissingName)
        else if name.value in old(participants) then Fail(AlreadyRegistered)
        else if !writeSucceeds then Fail(WriteFailed)
        else Pass
      ensures participants == if outcome.Pass? then old(participants) + [name.value] else old(participants)
      ensures results == old(results) && isDrawn == old(isDrawn)
    {
      if name.None? || IsBlank(name.value) {
        return Fail(MissingName);
      }
      if name.value in participants {
        return Fail(AlreadyRegistered);
      }
      if !writeSucceeds {
        return Fail(WriteFailed);
      }
      AppendKeepsDistinct(participants, name.value);
      participants := participants + [name.value];
      return Pass;
    }

    /**
     * Deletion: refused once drawn and for an unknown name; otherwise the one
     * entry holding the name is cut out and the rest keep their order.
     */
    method Delete(name: Name, writeSucceeds: bool) returns (outcome: Outcome)
      requires Valid()
      modifies this
      ensures Valid()
      ensures outcome ==
        if old(isDrawn) then Fail(AlreadyDrawn)
        else if name !in old(participants) then Fail(NotRegistered)
        else if !writeSucceeds then Fail(WriteFailed)
        else Pass
      ensures outcome.Pass? ==>
        var k := IndexOf(old(participants), name);
        participants == old(participants)[..k] + old(participants)[k + 1..]
      ensures outcome.Pass? ==>
        name !in participants && multiset(participants) == multiset(old(participants)) - multiset{name}
      ensures outcome.Fail? ==> participants == old(participants)
      ensures results == old(results) && isDrawn == old(isDrawn)
    {
      if isDrawn {
        return Fail(AlreadyDrawn);
      }
      var index := IndexOf(participants, name);
      if index == -1 {
        return Fail(NotRegistered);
      }
      if !writeSucceeds {
        return Fail(WriteFailed);
      }
      RemoveAt(participants, index);
      participants := participants[..index] + participants[index + 1..];
      return Pass;
    }

    /**
     * The draw: refused with fewer than two participants; when the generator
     * gives up (ghost `generated` is None) or the write fails the previous
     * results stay; otherwise every participant is paired with the receiver
     * at the same position of the generated arrangement and the state is
     * marked drawn.
     */
    method Draw(writeSucceeds: bool) returns (outcome: Outcome, ghost generated: Option<seq<Name>>)
      requires Valid()
      modifies this
      ensures Valid()
      ensures participants == old(participants)
      ensures outcome ==
        if |participants| < 2 then Fail(TooFewParticipants)
        else if generated.None? then Fail(DrawFailed)
        else if !writeSucceeds then Fail(WriteFailed)
        else Pass
      ensures |participants| < 2 ==> generated.None?
      ensures |participants| == 2 ==> outcome == Fail(DrawFailed)
      ensures generated.Some? ==>
        var receivers := generated.value;
        IsPermutationOf(receivers, participants) && NoSelfMatch(participants, receivers) && NoMutualPair(participants, receivers)
      ensures outcome.Fail? ==> results == old(results) && isDrawn == old(isDrawn)
      ensures outcome.Pass? ==> isDrawn && Pairs(results, participants, generated.value)
      ensures outcome.Pass? ==>
        forall k :: 0 <= k < |participants| ==> Lookup(participants[k]) == Receiver(Some(generated.value[k]))
    {
      if |participants| < 2 {
        return Fail(TooFewParticipants), None;
      }
      var receivers;
      ghost var spent;
      receivers, spent := GenerateDerangementNoTwoCycle(participants);
      generated := receivers;
      if receivers.None? {
        return Fail(DrawFailed), generated;
      }
      var drawn := receivers.value;
      var paired: map<Name, Name> := map[];
      var i := 0;
      while i < |participants|
        invariant 0 <= i <= |participants|
        invariant paired.Keys == (set k | 0 <= k < i :: participants[k])
        invariant forall k :: 0 <= k < i ==> participants[k] in paired && paired[participants[k]] == drawn[k]
      {
        paired := paired[participants[i] := drawn[i]];
        i := i + 1;
      }
      if !writeSucceeds {
        return Fail(WriteFailed), generated;
      }
      PairingIsAssignment(paired, participants, drawn);
      results := paired;
      isDrawn := true;
      return Pass, generated;
    }

    /**
     * The result lookup: refused before the draw and for an unknown name;
     * otherwise the stored receiver, absent for a name registered after the
     * draw. A receiver is never the asker, is a participant, and does not
     * give back to the asker.
     */
    function Lookup(name: Name): (answer: Answer)
      reads this
      requires Valid()
      ensures !isDrawn ==> answer == Refused(NotDrawn)
      ensures isDrawn && name !in participants ==> answer == Refused(NotRegistered)
      ensures isDrawn && name in participants ==> answer.Receiver? && (answer.receiver.Some? <==> name in results)
      ensures answer.Receiver? && answer.receiver.Some? ==>
        var r := answer.receiver.value;
        r != name && r in participants && r in results && results[r] != name
    {
      if !isDrawn then Refused(NotDrawn)
      else if name !in participants then Refused(NotRegistered)
      else if name in results then Receiver(Some(results[name]))
      else Receiver(None)
    }

    /** Reset: back to the initial state, unless the write fails. */
    method Reset(writeSucceeds: bool) returns (outcome: Outcome)
      requires Valid()
      modifies this
      ensures Valid()
      ensures outcome == if writeSucceeds then Pass else Fail(WriteFailed)
      ensures writeSucceeds ==> participants == [] && results == map[] && !isDrawn
      ensures !writeSucceeds ==> participants == old(participants) && results == old(results) && isDrawn == old(isDrawn)
    {
      if !writeSucceeds {
        return Fail(WriteFailed);
      }
      participants := [];
      results := map[];
      isDrawn := false;
      return Pass;
    }
  }
}
