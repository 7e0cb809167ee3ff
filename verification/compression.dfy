/** The extension's configuration and the after-request step that uses
    the negotiated coding: a response is compressed only when it is not
    already encoded, its media type is on the allow-list, its body is at
    least the minimum size, and a coding was negotiated. The byte
    compressor itself is a parameter. */
module Compression {
  import opened Wrappers
  import opened Text
  import opened Catalog
  import opened AcceptEncoding
  import opened Negotiation
  import opened QValue

  type Byte = b: int | 0 <= b < 256

  /** `compress(body, algorithm, level)`: the external encoder. */
  type Compressor = (seq<Byte>, string, int) -> seq<Byte>

  /** `COMPRESS_MIMETYPES`, `COMPRESS_LEVEL`, `COMPRESS_MIN_SIZE` and
      `COMPRESS_ALGORITHM`. */
  datatype Config = Config(mimetypes: seq<string>, level: int, minSize: int, algorithm: Setting)

  /** The values the extension installs when the application sets none. */
  const DefaultConfig: Config :=
    Config(["text/html", "text/css", "text/xml", "application/json", "application/javascript"],
           6, 500, DefaultSetting)

  /** The parts of an outgoing response the step reads or rewrites. */
  datatype Response = Response(mimetype: string, body: seq<Byte>, contentEncoding: Option<string>)

  /** The response-side checks: never compress twice, only listed media
      types, and only bodies of at least the minimum size. */
  predicate Eligible(cfg: Config, resp: Response) {
    && resp.contentEncoding.None?
    && resp.mimetype in cfg.mimetypes
    && |resp.body| >= cfg.minSize
  }

  /** The after-request step for a request that sent `acceptEncoding` (""
      when the header is absent). The media type is never changed; an
      ineligible response, or one for which nothing was negotiated, passes
      through untouched; otherwise the body is the compressor's output for
      the negotiated coding and the configured level, and the response is
      marked with that coding. */
  function AfterRequest(cfg: Config, acceptEncoding: string, resp: Response, compress: Compressor): (r: Response)
    ensures r.mimetype == resp.mimetype
    ensures !Eligible(cfg, resp) ==> r == resp
    ensures r.contentEncoding.Some? <==>
              resp.contentEncoding.Some?
              || (Eligible(cfg, resp) && Choose(ParseHeader(acceptEncoding), EnabledAlgorithms(cfg.algorithm)).Some?)
    ensures resp.contentEncoding.None? && r.contentEncoding.Some? ==>
              && r.contentEncoding == Choose(ParseHeader(acceptEncoding), EnabledAlgorithms(cfg.algorithm))
              && r.contentEncoding.value in EnabledAlgorithms(cfg.algorithm)
              && r.body == compress(resp.body, r.contentEncoding.value, cfg.level)
    ensures r.contentEncoding.None? ==> r == resp
  {
    if !Eligible(cfg, resp) then resp
    else
      match Choose(ParseHeader(acceptEncoding), EnabledAlgorithms(cfg.algorithm))
      case None => resp
      case Some(algorithm) =>
        Response(resp.mimetype, compress(resp.body, algorithm, cfg.level), Some(algorithm))
  }

  /** Running the step on its own output changes nothing: a compressed
      response is never compressed again. */
  lemma AfterRequestIdempotent(cfg: Config, acceptEncoding: string, resp: Response, compress: Compressor)
    ensures var once := AfterRequest(cfg, acceptEncoding, resp, compress);
            AfterRequest(cfg, acceptEncoding, once, compress) == once
  {
  }

  /** With the defaults, a body shorter than 500 bytes is sent as it is,
      whatever the client accepts. */
  lemma SmallBodyUncompressed(acceptEncoding: string, resp: Response, compress: Compressor)
    requires |resp.body| < 500
    ensures AfterRequest(DefaultConfig, acceptEncoding, resp, compress) == resp
  {
  }

  /** The default catalog holds gzip alone. */
  lemma DefaultCatalogIsGzip()
    ensures EnabledAlgorithms(DefaultConfig.algorithm) == ["gzip"]
  {
    SingleNameSetting("gzip");
  }

  lemma GzipRequestChoosesGzip()
    ensures Choose(ParseHeader("gzip"), ["gzip"]) == Some("gzip")
  {
    var prefs := [Preference("gzip", DefaultQuality)];
    assert Weight(prefs, "gzip") == DefaultQuality;
    SingleCandidateChosen(prefs, ["gzip"], 0);
    SingleCodingHeader("gzip");
  }

  /** With the defaults, an HTML body of at least 500 bytes requested with
      `Accept-Encoding: gzip` is gzip-compressed at level 6. */
  lemma LargeBodyGzipped(body: seq<Byte>, compress: Compressor)
    requires |body| >= 500
    ensures AfterRequest(DefaultConfig, "gzip", Response("text/html", body, None), compress)
            == Response("text/html", compress(body, "gzip", 6), Some("gzip"))
  {
    DefaultCatalogIsGzip();
    GzipRequestChoosesGzip();
  }
}
