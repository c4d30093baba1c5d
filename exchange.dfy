/**
 * What one command exchange reads back. The session reads one byte at a time and
 * appends each decoded character to the response; it stops at the first read that
 * delivers nothing, right after appending a '>' prompt character, and right after
 * a read whose status is not success.
 */
module Exchange {
  import opened Transport

  /** The prompt character the device prints when it is ready for the next command. */
  const Prompt := '>'

  /** The line terminator appended to every command. */
  const LineEnd := "\r\n"

  /** A read after which the loop goes on reading: one byte, success status, and not the prompt. */
  predicate Continues(o: ReadOutcome) {
    o.bytesRead == 1 && o.status == Succeeded && DecodeByte(o.data) != Prompt
  }

  /** The response the reads `p` produce; once `p` runs out, reads time out empty. */
  function Response(p: seq<ReadOutcome>): (r: string)
    ensures |r| <= |p|
  {
    if p == [] || p[0].bytesRead == 0 then ""
    else if !Continues(p[0]) then [DecodeByte(p[0].data)]
    else [DecodeByte(p[0].data)] + Response(p[1..])
  }

  /** How many of the outcomes `p` the exchange takes from the reader. */
  function Consumed(p: seq<ReadOutcome>): (n: nat)
    ensures n <= |p|
  {
    if p == [] then 0
    else if !Continues(p[0]) then 1
    else 1 + Consumed(p[1..])
  }

  /**
   * An independent description of the response `r` read from `p`: every character
   * is the decoded byte of the read at its position, every read but the last one
   * used goes on reading, and the exchange stops at the last read used, at a read
   * that delivers nothing, or where `p` runs out.
   */
  ghost predicate IsResponse(p: seq<ReadOutcome>, r: string) {
    && |r| <= |p|
    && (forall i :: 0 <= i < |r| ==> p[i].bytesRead == 1 && r[i] == DecodeByte(p[i].data))
    && (forall i :: 0 <= i < |r| - 1 ==> Continues(p[i]))
    && ((r != [] && !Continues(p[|r| - 1])) || |r| == |p| || p[|r|].bytesRead == 0)
  }

  /** The response meets the description. */
  lemma {:induction false} ResponseIsResponse(p: seq<ReadOutcome>)
    ensures IsResponse(p, Response(p))
  {
    if p != [] && p[0].bytesRead != 0 && Continues(p[0]) {
      var t := p[1..];
      ResponseIsResponse(t);
      var r := Response(p);
      assert r == [DecodeByte(p[0].data)] + Response(t);
      forall i | 1 <= i < |p| ensures p[i] == t[i - 1] { }
    }
  }

  /** The description leaves no choice: only the response meets it. */
  lemma ResponseIsOnlyResponse(p: seq<ReadOutcome>, r: string)
    requires IsResponse(p, r)
    ensures r == Response(p)
  {
    ResponseIsResponse(p);
  }

  /** A prompt character can only be the last character of a response. */
  lemma {:induction false} PromptOnlyLast(p: seq<ReadOutcome>)
    ensures forall i :: 0 <= i < |Response(p)| - 1 ==> Response(p)[i] != Prompt
  {
    if p != [] && p[0].bytesRead != 0 && Continues(p[0]) {
      PromptOnlyLast(p[1..]);
      var r := Response(p);
      assert r == [DecodeByte(p[0].data)] + Response(p[1..]);
    }
  }

  /**
   * When the device prints the prompt at read `j` and every earlier read delivered a
   * byte with success status, the response is everything up to and including that prompt.
   */
  lemma PromptEndsResponse(p: seq<ReadOutcome>, j: nat)
    requires j < |p| && p[j].bytesRead == 1 && DecodeByte(p[j].data) == Prompt
    requires forall i :: 0 <= i < j ==> p[i].bytesRead == 1 && p[i].status == Succeeded
    requires forall i :: 0 <= i < j ==> DecodeByte(p[i].data) != Prompt
    ensures |Response(p)| == j + 1 && Response(p)[j] == Prompt
    ensures forall i :: 0 <= i <= j ==> Response(p)[i] == DecodeByte(p[i].data)
  {
    var r := seq(j + 1, i requires 0 <= i <= j => DecodeByte(p[i].data));
    assert IsResponse(p, r);
    ResponseIsOnlyResponse(p, r);
  }

  /**
   * The reads taken are those whose bytes form the response, plus the empty read
   * that ended it when there was one: there was one exactly when reads remain after
   * the response and the response is empty or its last read went on reading.
   */
  lemma {:induction false} ConsumedCoversResponse(p: seq<ReadOutcome>)
    ensures var r := Response(p);
      Consumed(p) == |r| + (if |r| < |p| && (r == "" || Continues(p[|r| - 1])) then 1 else 0)
    ensures Consumed(p) == |Response(p)| + 1 ==> p[Consumed(p) - 1].bytesRead == 0
  {
    if p != [] && Continues(p[0]) {
      var t := Response(p[1..]);
      ConsumedCoversResponse(p[1..]);
      assert Response(p) == [DecodeByte(p[0].data)] + t;
      if t != "" {
        assert p[|Response(p)| - 1] == p[1..][|t| - 1];
      }
      if Consumed(p[1..]) > 0 {
        assert p[Consumed(p) - 1] == p[1..][Consumed(p[1..]) - 1];
      }
    }
  }
}
