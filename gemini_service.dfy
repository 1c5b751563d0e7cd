/**
  The client side of a generation request (services/geminiService.ts): the
  width clamp applied to the design before it is encoded, the base URL of
  the backend, the request it sends, and the handling of a failed reply.
  Image decoding, canvas drawing, JPEG encoding and `fetch` are browser
  services and are not modelled.
*/
module GeminiService {
  import opened Wrappers
  import opened JsString
  import opened Types
  import opened Constants
  import Server

  const MaxWidth: real := 1600.0

  /** The dimensions `optimizeImage` draws the image at: a width over the
      limit is brought down to it and the height scaled by the same factor.
      JavaScript numbers are taken as exact reals. */
  method ClampDimensions(imageWidth: nat, imageHeight: nat) returns (width: real, height: real)
    ensures width <= MaxWidth
    ensures imageWidth as real <= MaxWidth ==> width == imageWidth as real && height == imageHeight as real
    ensures imageWidth as real > MaxWidth ==> width == MaxWidth
    ensures height * imageWidth as real == width * imageHeight as real
    ensures width <= imageWidth as real && height <= imageHeight as real
  {
    width := imageWidth as real;
    height := imageHeight as real;
    if width > MaxWidth {
      ghost var w, h := width, height;
      height := (MaxWidth / width) * height;
      width := MaxWidth;
      assert height * w == MaxWidth * h by {
        calc {
          height * w;
          (MaxWidth / w) * h * w;
          (MaxWidth / w) * w * h;
          MaxWidth * h;
        }
      }
      assert height <= h by {
        assert MaxWidth / w < 1.0;
        assert (MaxWidth / w) * h <= 1.0 * h;
      }
    }
  }

  /** `s.replace(/\/+$/, '')`: the run of slashes at the end removed. */
  function TrimTrailingSlashes(s: string): string {
    if s != [] && s[|s| - 1] == '/' then TrimTrailingSlashes(s[..|s| - 1]) else s
  }

  /** Only slashes are removed, all of those at the end, and nothing before them. */
  lemma {:induction false} TrimTrailingSlashesSpec(s: string)
    ensures var r := TrimTrailingSlashes(s);
      && StartsWith(s, r)
      && (forall i | |r| <= i < |s| :: s[i] == '/')
      && !EndsWith(r, "/")
  {
    if s != [] && s[|s| - 1] == '/' {
      var t := s[..|s| - 1];
      TrimTrailingSlashesSpec(t);
      var r := TrimTrailingSlashes(s);
      assert t[..|r|] == s[..|r|];
    }
  }

  /** `getApiBase`: the configured base without trailing slashes, or the
      empty string (same origin) when none is configured. */
  function ApiBase(configured: Option<string>): string {
    if configured.Some? && configured.value != "" then TrimTrailingSlashes(configured.value) else ""
  }

  /** Unset or empty gives the empty base; otherwise the base is a prefix of
      the setting, does not end in a slash, and is its own base. */
  lemma ApiBaseSpec(configured: Option<string>)
    ensures configured.None? || configured == Some("") ==> ApiBase(configured) == ""
    ensures configured.Some? ==> StartsWith(configured.value, ApiBase(configured))
    ensures !EndsWith(ApiBase(configured), "/")
    ensures ApiBase(Some(ApiBase(configured))) == ApiBase(configured)
  {
    if configured.Some? && configured.value != "" {
      var r := ApiBase(configured);
      TrimTrailingSlashesSpec(configured.value);
      if r != [] {
        assert r[|r| - 1..] != "/";
      }
    }
  }

  const GeneratePath: string := "/api/generate-code"

  function Endpoint(configured: Option<string>): string {
    ApiBase(configured) + GeneratePath
  }

  /** The endpoint is the route on the configured base, with exactly one slash
      between them. */
  lemma EndpointSpec(configured: Option<string>)
    ensures EndsWith(Endpoint(configured), GeneratePath)
    ensures var e := Endpoint(configured); var k := |e| - |GeneratePath|;
      k == 0 || e[k - 1] != '/'
  {
    var b := ApiBase(configured);
    ApiBaseSpec(configured);
    ConcatParts(b, GeneratePath, "");
    assert b + GeneratePath + "" == Endpoint(configured);
    ConcatParts(b, "", GeneratePath);
    assert b + "" + GeneratePath == Endpoint(configured);
    if b != [] {
      assert b[|b| - 1..] == [b[|b| - 1]];
      assert Endpoint(configured)[|b| - 1] == b[|b| - 1];
    }
  }

  /** The body posted to the backend. */
  function RequestBody(optimizedImage: string, guidance: string, previous: Option<GeneratedCode>, systemPrompt: string): Server.Request {
    Server.Request(Server.Text(optimizedImage), guidance, previous, Some(GeminiModelVision), Some(systemPrompt))
  }

  /** What the client posts passes the server's checks once it holds an
      image and the server has a key, and the server then asks for the
      client's model. */
  lemma RequestBodyAccepted(apiKey: string, optimizedImage: string, guidance: string,
                            previous: Option<GeneratedCode>, systemPrompt: string)
    requires apiKey != "" && optimizedImage != ""
    ensures var prepared := Server.Prepare(apiKey, RequestBody(optimizedImage, guidance, previous, systemPrompt));
      && prepared.Ok?
      && prepared.value.model == GeminiModelVision
  {
  }

  /** The backend's reply as the client sees it. */
  datatype BackendResponse = BackendResponse(ok: bool, status: nat, statusText: string, text: string)

  const BackendErrorOpen: string := "Backend error ("
  const BackendErrorClose: string := "): "

  /** The end of `generateCodeFromDesign`: a failed reply becomes an error
      carrying its status and text; a successful one gives what its body
      decodes to (`decoded`, which is itself an error if the body is not JSON). */
  function GenerationResult(response: BackendResponse, decoded: Result<GeneratedCode>): Result<GeneratedCode> {
    if !response.ok then
      Err(BackendErrorOpen + (NatToString(response.status) + " " + response.statusText) + (BackendErrorClose + response.text))
    else decoded
  }

  /** A failed reply never yields code, and its message ends with the
      backend's own text; a successful one yields exactly the decoded body. */
  lemma GenerationResultSpec(response: BackendResponse, decoded: Result<GeneratedCode>)
    ensures !response.ok ==> GenerationResult(response, decoded).Err?
    ensures !response.ok ==> StartsWith(GenerationResult(response, decoded).message, BackendErrorOpen)
    ensures !response.ok ==> EndsWith(GenerationResult(response, decoded).message, BackendErrorClose + response.text)
    ensures response.ok ==> GenerationResult(response, decoded) == decoded
  {
    if !response.ok {
      ConcatParts(BackendErrorOpen, NatToString(response.status) + " " + response.statusText,
                  BackendErrorClose + response.text);
    }
  }
}
