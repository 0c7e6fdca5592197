/** The decision a generator task takes after one generation attempt for a chunk: retry,
    give up, accept the shortest valid candidate, or exit on an unknown validation mode. */
module Attempt {
  import opened Text
  import opened Validation

  /** One generated candidate: its text and what it cost in tokens. */
  type Reply = (string, nat)

  datatype Decision =
    | Retry                             // put the chunk back on the input queue
    | GiveUp                            // send it on unsuccessful and count a failure
    | Accept(text: string, cost: nat)   // send it on with `text` and charge `cost`
    | Terminate                         // an unknown validation mode ends the process

  function Texts(replies: seq<Reply>): (ts: seq<string>)
    ensures |ts| == |replies| && forall i :: 0 <= i < |replies| ==> ts[i] == replies[i].0
  {
    seq(|replies|, i requires 0 <= i < |replies| => replies[i].0)
  }

  /** `sum(cost for text, cost in outputs)`. */
  function TotalCost(replies: seq<Reply>): nat
  {
    if replies == [] then 0 else replies[0].1 + TotalCost(replies[1..])
  }

  /** The position that `valid_outputs.sort(key=len)` brings to the front: Python's sort is
      stable, so among the shortest texts the first one wins. */
  function Shortest(texts: seq<string>): (i: nat)
    requires texts != []
    ensures i < |texts|
    ensures forall k :: 0 <= k < |texts| ==> |texts[i]| <= |texts[k]|
    ensures forall k :: 0 <= k < i ==> |texts[k]| > |texts[i]|
  {
    if |texts| == 1 then 0
    else
      var j := Shortest(texts[1..]) + 1;
      assert forall k :: 1 <= k < |texts| ==> texts[k] == texts[1..][k - 1];
      if |texts[0]| <= |texts[j]| then 0 else j
  }

  /** The generator's decision once `attempt` (already incremented) tries have been made and
      `replies` came back. */
  function Decide(check: string -> Verdict, attempt: int, attempts: int, replies: seq<Reply>): Decision
  {
    match KeepValidOutput(check, Texts(replies))
    case Exited => Terminate
    case Kept(valid) =>
      if valid == [] then (if attempt < attempts then Retry else GiveUp)
      else Accept(valid[Shortest(valid)], TotalCost(replies))
  }

  /** The decision in terms of the candidates themselves: exit when a reply meets an unknown
      mode; otherwise retry or give up exactly when no reply is valid (retry iff tries remain);
      otherwise accept a validated reply no longer than any other validated reply and strictly
      shorter than every validated reply before it, charging the cost of every reply of the
      attempt. */
  lemma DecideMeans(check: string -> Verdict, attempt: int, attempts: int, replies: seq<Reply>)
    ensures var d := Decide(check, attempt, attempts, replies);
      && (d.Terminate? <==> exists i :: 0 <= i < |replies| && check(replies[i].0).Exit?)
      && (d.Retry? <==> !d.Terminate? && (forall i :: 0 <= i < |replies| ==> !Accepts(check, replies[i].0)) && attempt < attempts)
      && (d.GiveUp? <==> !d.Terminate? && (forall i :: 0 <= i < |replies| ==> !Accepts(check, replies[i].0)) && attempt >= attempts)
      && (d.Accept? ==>
            && d.cost == TotalCost(replies)
            && exists i :: 0 <= i < |replies| && Accepts(check, replies[i].0) && d.text == check(replies[i].0).text
                 && (forall k :: 0 <= k < |replies| && Accepts(check, replies[k].0) ==>
                       |d.text| <= |check(replies[k].0).text|)
                 && (forall k :: 0 <= k < i && Accepts(check, replies[k].0) ==>
                       |check(replies[k].0).text| > |d.text|))
  {
    DecideRejects(check, attempt, attempts, replies);
    var d := Decide(check, attempt, attempts, replies);
    if d.Accept? {
      var i := ShortestAccepted(check, replies);
      assert d.text == check(replies[i].0).text;
    }
  }

  /** The exit and the two outcomes without a valid reply. */
  lemma DecideRejects(check: string -> Verdict, attempt: int, attempts: int, replies: seq<Reply>)
    ensures var d := Decide(check, attempt, attempts, replies);
      && (d.Terminate? <==> exists i :: 0 <= i < |replies| && check(replies[i].0).Exit?)
      && (d.Retry? <==> !d.Terminate? && (forall i :: 0 <= i < |replies| ==> !Accepts(check, replies[i].0)) && attempt < attempts)
      && (d.GiveUp? <==> !d.Terminate? && (forall i :: 0 <= i < |replies| ==> !Accepts(check, replies[i].0)) && attempt >= attempts)
      && (d.Accept? ==>
            && d.cost == TotalCost(replies)
            && KeepValidOutput(check, Texts(replies)).Kept? && KeepValidOutput(check, Texts(replies)).texts != []
            && d.text == KeepValidOutput(check, Texts(replies)).texts[Shortest(KeepValidOutput(check, Texts(replies)).texts)])
  {
    var ts := Texts(replies);
    KeepValidOrder(check, ts, 0);
    AcceptedComplete(check, ts, 0);
    var ps := AcceptedFrom(check, ts, 0);
    if KeepValidOutput(check, ts).Kept? {
      var valid := KeepValidOutput(check, ts).texts;
      if valid == [] {
        assert ps == [];
      } else {
        assert ps[0] < |replies| && Accepts(check, replies[ps[0]].0);
      }
    }
  }

  /** The reply whose text is accepted: the first validated reply among the shortest. */
  lemma ShortestAccepted(check: string -> Verdict, replies: seq<Reply>) returns (i: nat)
    requires KeepValidOutput(check, Texts(replies)).Kept? && KeepValidOutput(check, Texts(replies)).texts != []
    ensures var valid := KeepValidOutput(check, Texts(replies)).texts;
      var text := valid[Shortest(valid)];
      && i < |replies| && Accepts(check, replies[i].0) && text == check(replies[i].0).text
      && (forall k :: 0 <= k < |replies| && Accepts(check, replies[k].0) ==> |text| <= |check(replies[k].0).text|)
      && (forall k :: 0 <= k < i && Accepts(check, replies[k].0) ==> |check(replies[k].0).text| > |text|)
  {
    var ts := Texts(replies);
    KeepValidOrder(check, ts, 0);
    var ps := AcceptedFrom(check, ts, 0);
    var valid := KeepValidOutput(check, ts).texts;
    var s := Shortest(valid);
    i := ps[s];
    forall k | 0 <= k < |replies| && Accepts(check, replies[k].0)
      ensures |valid[s]| <= |check(replies[k].0).text|
    {
      assert Accepts(check, ts[k]);
      var m := AcceptedAt(check, ts, k);
      assert valid[m] == check(replies[k].0).text;
    }
    forall k | 0 <= k < i && Accepts(check, replies[k].0)
      ensures |check(replies[k].0).text| > |valid[s]|
    {
      assert Accepts(check, ts[k]);
      var m := AcceptedAt(check, ts, k);
      IncreasingOrder(ps, m, s);
      assert valid[m] == check(replies[k].0).text;
    }
  }

  /** In an increasing sequence, a smaller entry sits at a smaller position. */
  lemma IncreasingOrder(ps: seq<nat>, m: nat, s: nat)
    requires forall a, b :: 0 <= a < b < |ps| ==> ps[a] < ps[b]
    requires m < |ps| && s < |ps| && ps[m] < ps[s]
    ensures m < s
  {
  }

  /** The number of tries a chunk gets when the attempts' replies are `rounds`, starting with
      `attempt` tries already made: each try increments the counter and stops the chunk's
      journey unless the decision is to retry. */
  function Tries(check: string -> Verdict, attempts: int, attempt: nat, rounds: seq<seq<Reply>>): nat
    decreases |rounds|
  {
    if rounds == [] then 0
    else if Decide(check, attempt + 1, attempts, rounds[0]).Retry? then 1 + Tries(check, attempts, attempt + 1, rounds[1..])
    else 1
  }

  /** A fresh chunk is tried at most `max(1, attempts)` times, whatever the replies. */
  lemma {:induction false} TriesBounded(check: string -> Verdict, attempts: int, attempt: nat, rounds: seq<seq<Reply>>)
    requires attempt == 0 || attempt < attempts
    ensures Tries(check, attempts, attempt, rounds) <= if attempts > attempt then attempts - attempt else 1
    decreases |rounds|
  {
    if rounds != [] && Decide(check, attempt + 1, attempts, rounds[0]).Retry? {
      DecideMeans(check, attempt + 1, attempts, rounds[0]);
      TriesBounded(check, attempts, attempt + 1, rounds[1..]);
    }
  }
}
