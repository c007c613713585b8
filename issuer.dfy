/** The issuing handler: it draws a fresh id and a 6-character code, renders
    the code into a 200-by-100 picture, stores the picture under the id,
    stores the challenge record under the same id, and answers with the id
    and the picture's URL. The object store and the table are abstract maps;
    the id, the clock and the random draws are parameters, and each
    external call that can fail has a flag saying whether it does. */
module Issuer {
  import opened Wrappers
  import opened Ascii
  import CodeGen
  import NoiseLayer
  import opened Render

  /** Seconds a challenge is meant to stay in the table. */
  const Ttl: int := 60
  /** The issuer's canvas. */
  const ImageWidth: nat := 200
  const ImageHeight: nat := 100

  /** The table item: PK, code, imageUrl and TTL. */
  datatype Challenge = Challenge(pk: string, code: string, imageUrl: string, ttl: int)

  /** The body of a successful reply. */
  datatype IssueResponse = IssueResponse(id: string, imageUrl: string)

  /** The object store keeps, under each key, the text drawn on the picture
      (the only part of the picture a person reads back); the table maps each
      PK to its challenge. */
  datatype Store = Store(images: map<string, string>, table: map<string, Challenge>)

  /** Which of the external steps succeed. */
  datatype Env = Env(fontLoads: bool, pngEncodes: bool, putObjectOk: bool, putItemOk: bool)

  /** The handler's reply together with the store it leaves behind. */
  datatype Issued = Issued(reply: Outcome<IssueResponse>, store: Store)

  /** The picture's public URL: the bucket domain, a slash, the id. */
  function ImageUrl(domain: string, id: string): (url: string)
    ensures |url| == |domain| + 1 + |id|
    ensures url[..|domain|] == domain && url[|domain|] == '/' && url[|domain| + 1..] == id
  {
    domain + "/" + id
  }

  /** Reads the key back out of a URL of the bucket domain. */
  function KeyFromUrl(domain: string, url: string): (key: Option<string>)
    ensures key.Some? ==> ImageUrl(domain, key.value) == url
  {
    if |url| > |domain| && url[..|domain|] == domain && url[|domain|] == '/'
    then
      assert url == domain + "/" + url[|domain| + 1..];
      Some(url[|domain| + 1..])
    else None
  }

  /** The id is recovered from its URL, so two ids never share a URL. */
  lemma UrlRoundTrip(domain: string, id: string)
    ensures KeyFromUrl(domain, ImageUrl(domain, id)) == Some(id)
  {
    var url := ImageUrl(domain, id);
    assert url[..|domain|] == domain;
  }

  lemma ImageUrlInjective(domain: string, id1: string, id2: string)
    requires ImageUrl(domain, id1) == ImageUrl(domain, id2)
    ensures id1 == id2
  {
    UrlRoundTrip(domain, id1);
    UrlRoundTrip(domain, id2);
  }

  /** The record stored for id: the code upper-cased, the URL of the picture
      stored under the same id, and an expiry 60 seconds after now. */
  function NewChallenge(id: string, code: string, domain: string, now: int): (c: Challenge)
    requires forall i :: 0 <= i < |code| ==> IsAlnum(code[i])
    ensures c.pk == id
    ensures |c.code| == |code| && NoLower(c.code)
    ensures forall i :: 0 <= i < |code| ==> c.code[i] == UpperChar(code[i])
    ensures KeyFromUrl(domain, c.imageUrl) == Some(c.pk)
    ensures c.ttl - now == Ttl
  {
    UpperHasNoLower(code);
    UrlRoundTrip(domain, id);
    Challenge(id, ToUpper(code), ImageUrl(domain, id), now + Ttl)
  }

  /** The issuing handler. A missing id (ksuid failure), a font that cannot be
      loaded, a PNG that cannot be encoded and a failed PutObject each end the
      run with nothing stored; a failed PutItem ends it after the picture is
      stored, leaving a picture without a record. Otherwise the picture with
      the raw code is stored under id, the record with the upper-cased code
      is stored under the same id, and the reply carries id and URL. */
  method Issue(id: Option<string>, codeDraws: seq<int>, noiseDraws: seq<NoiseLayer.NoiseDraw>,
               domain: string, now: int, env: Env, store: Store) returns (out: Issued)
    requires |codeDraws| == CodeGen.CodeLength && CodeGen.ValidDraws(codeDraws)
    requires |noiseDraws| == |NoiseLayer.Grid(ImageWidth, ImageHeight)| && NoiseLayer.ValidDraws(noiseDraws)
    ensures id.None? ==> out == Issued(Fatal("generate ksuid"), store)
    ensures id.Some? && !env.fontLoads ==> out == Issued(Fatal("generate image"), store)
    ensures id.Some? && env.fontLoads && !env.pngEncodes ==> out == Issued(Fatal("png encode"), store)
    ensures id.Some? && env.fontLoads && env.pngEncodes && !env.putObjectOk ==>
              out == Issued(Fatal("put object"), store)
    ensures id.Some? && env.fontLoads && env.pngEncodes && env.putObjectOk && !env.putItemOk ==>
              out == Issued(Fatal("put item"),
                            Store(store.images[id.value := CodeGen.CodeOf(codeDraws)], store.table))
    ensures id.Some? && env.fontLoads && env.pngEncodes && env.putObjectOk && env.putItemOk ==>
              var code := CodeGen.CodeOf(codeDraws);
              out == Issued(Done(IssueResponse(id.value, ImageUrl(domain, id.value))),
                            Store(store.images[id.value := code],
                                  store.table[id.value := NewChallenge(id.value, code, domain, now)]))
  {
    if id.None? {
      return Issued(Fatal("generate ksuid"), store);
    }
    var key := id.value;
    var code := CodeGen.GenerateCode(CodeGen.CodeLength, codeDraws);
    var upperCode := ToUpper(code);
    var picture := GenerateImage(code, ImageWidth, ImageHeight, noiseDraws, env.fontLoads);
    if picture.FontMissing? {
      return Issued(Fatal("generate image"), store);
    }
    if !env.pngEncodes {
      return Issued(Fatal("png encode"), store);
    }
    if !env.putObjectOk {
      return Issued(Fatal("put object"), store);
    }
    var images := store.images[key := picture.caption.text];
    var url := ImageUrl(domain, key);
    if !env.putItemOk {
      return Issued(Fatal("put item"), Store(images, store.table));
    }
    var item := Challenge(key, upperCode, url, now + Ttl);
    out := Issued(Done(IssueResponse(key, url)), Store(images, store.table[key := item]));
  }
}
