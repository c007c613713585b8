/** The validating handler: it looks the submitted id up in the table and
    compares the stored code with the submitted one, exactly and with case.
    The TTL attribute is never read, so an expired record is judged like any
    other (the table's own expiry may remove it, which this model leaves to
    whoever changes the table). */
module Verifier {
  import opened Wrappers
  import opened Ascii
  import CodeGen
  import NoiseLayer
  import opened Issuer

  /** The decoded request body. */
  datatype ValidateRequest = ValidateRequest(id: string, code: string)

  /** The reply body: empty, or a JSON object with one message. */
  datatype Body = Empty | Message(text: string)

  datatype Reply = Reply(status: int, body: Body)

  const NotFound := Reply(404, Empty)
  const Incorrect := Reply(400, Message("INCORRECT"))
  const Accepted := Reply(200, Message("OK"))

  /** GetItem by PK. */
  function Lookup(table: map<string, Challenge>, id: string): (item: Option<Challenge>)
    ensures item.Some? <==> id in table
    ensures item.Some? ==> item.value == table[id]
  {
    if id in table then Some(table[id]) else None
  }

  /** The three-way verdict on a looked-up item and a submitted code. */
  function Verdict(item: Option<Challenge>, submitted: string): (r: Reply)
    ensures r == NotFound <==> item.None?
    ensures r == Incorrect <==> item.Some? && item.value.code != submitted
    ensures r == Accepted <==> item.Some? && item.value.code == submitted
    ensures r == NotFound || r == Incorrect || r == Accepted
  {
    if item.None? then NotFound
    else if item.value.code != submitted then Incorrect
    else Accepted
  }

  /** The validating handler on a decoded request and a table. Being a
      function of the two, asking twice against the same table gives the same
      reply. */
  function Validate(table: map<string, Challenge>, req: ValidateRequest): (r: Reply)
    ensures r == NotFound <==> req.id !in table
    ensures r == Accepted <==> req.id in table && table[req.id].code == req.code
    ensures r == Incorrect <==> req.id in table && table[req.id].code != req.code
  {
    Verdict(Lookup(table, req.id), req.code)
  }

  /** Only the stored code matters: two records with the same code give the
      same verdict whatever their TTL and URL, so a record whose TTL lies in
      the past is still accepted or refused on its code. */
  lemma VerdictIgnoresTtl(c: Challenge, ttl: int, url: string, submitted: string, now: int)
    requires c.ttl < now
    ensures Verdict(Some(c), submitted) == Verdict(Some(c.(ttl := ttl, imageUrl := url)), submitted)
    ensures Verdict(Some(c), submitted) != NotFound
  {
  }

  /** Submitting the upper-cased code of a just-issued challenge is accepted. */
  lemma IssuedUpperAccepted(table: map<string, Challenge>, id: string, code: string, domain: string, now: int)
    requires forall i :: 0 <= i < |code| ==> IsAlnum(code[i])
    ensures Validate(table[id := NewChallenge(id, code, domain, now)], ValidateRequest(id, ToUpper(code))) == Accepted
  {
  }

  /** Submitting the code as generated, before upper-casing, is accepted
      exactly when it holds no lowercase letter; otherwise it is refused. */
  lemma IssuedRawAccepted(table: map<string, Challenge>, id: string, code: string, domain: string, now: int)
    requires forall i :: 0 <= i < |code| ==> IsAlnum(code[i])
    ensures Validate(table[id := NewChallenge(id, code, domain, now)], ValidateRequest(id, code)) == Accepted
            <==> NoLower(code)
    ensures !NoLower(code) ==>
              Validate(table[id := NewChallenge(id, code, domain, now)], ValidateRequest(id, code)) == Incorrect
  {
    UpperFixpoint(code);
  }

  /** For a generated code: the raw code is accepted exactly when no draw
      picked one of the 26 lowercase letters at the front of the alphabet. */
  lemma GeneratedRawAccepted(table: map<string, Challenge>, id: string, draws: seq<int>, domain: string, now: int)
    requires CodeGen.ValidDraws(draws)
    ensures var code := CodeGen.CodeOf(draws);
            Validate(table[id := NewChallenge(id, code, domain, now)], ValidateRequest(id, code)) == Accepted
            <==> forall i :: 0 <= i < |draws| ==> draws[i] >= 26
  {
    IssuedRawAccepted(table, id, CodeGen.CodeOf(draws), domain, now);
    CodeGen.CodeNoLower(draws);
  }

  /** An issue run that gets as far as storing the picture, followed by a
      validation that submits the picture's text upper-cased. When PutItem
      succeeds the submission is accepted; when it fails the picture is
      stored without a record, and an id the table did not hold before gives
      404. */
  method IssueThenValidate(id: string, codeDraws: seq<int>, noiseDraws: seq<NoiseLayer.NoiseDraw>,
                           domain: string, now: int, env: Env, store: Store)
      returns (issued: Issued, reply: Reply)
    requires |codeDraws| == CodeGen.CodeLength && CodeGen.ValidDraws(codeDraws)
    requires |noiseDraws| == |NoiseLayer.Grid(ImageWidth, ImageHeight)| && NoiseLayer.ValidDraws(noiseDraws)
    requires env.fontLoads && env.pngEncodes && env.putObjectOk
    ensures id in issued.store.images && issued.store.images[id] == CodeGen.CodeOf(codeDraws)
    ensures env.putItemOk ==> issued.reply.Done? && reply == Accepted
    ensures !env.putItemOk ==> issued.reply == Fatal("put item")
    ensures !env.putItemOk && id !in store.table ==> reply == NotFound
  {
    issued := Issue(Some(id), codeDraws, noiseDraws, domain, now, env, store);
    var shown := issued.store.images[id];
    reply := Validate(issued.store.table, ValidateRequest(id, ToUpper(shown)));
  }

  /** Issuing a challenge under one id leaves the verdict for every other id
      unchanged. */
  lemma IssueKeepsOthers(table: map<string, Challenge>, c: Challenge, req: ValidateRequest)
    requires req.id != c.pk
    ensures Validate(table[c.pk := c], req) == Validate(table, req)
  {
  }
}
