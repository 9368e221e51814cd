/**
 * The `RequestID` middleware object: it derives the WSGI environ key of its header once, computes
 * the reconciled header value per request, stores it in the request environ and appends it to
 * the response headers.
 */
module Middleware {
  import opened Wrappers
  import opened Strings
  import opened Uuid
  import opened Reconciler

  /** `"HTTP_" + name.upper().replace('-', '_')`: the key under which WSGI exposes a request header. */
  function EnvironKey(headerName: string): (key: string)
    ensures |key| == |headerName| + 5 && key[..5] == "HTTP_"
    ensures '-' !in key
    ensures forall i :: 0 <= i < |key| ==> !IsAsciiLower(key[i])
  {
    "HTTP_" + ReplaceChar(Upper(headerName), '-', '_')
  }

  /** Header names that differ only in the case of their letters share one environ key. */
  lemma EnvironKeyIgnoresCase(headerName: string)
    ensures EnvironKey(Lower(headerName)) == EnvironKey(headerName)
  {
  }

  /** Header names that differ only in `-` against `_` share one environ key. */
  lemma EnvironKeyIgnoresDashes(headerName: string)
    ensures EnvironKey(ReplaceChar(headerName, '-', '_')) == EnvironKey(headerName)
  {
  }

  // Helpers for `RequestIdEnvironKey`: they evaluate `EnvironKey` on the one header name the
  // middleware uses, a character at a time, without unfolding `Upper` on a string literal.

  /** `s` is `X-Request-ID` spelled with `sep` for the dashes, its middle word in upper case
      when `upper` holds. */
  predicate SpellsRequestId(s: string, sep: char, upper: bool)
  {
    && |s| == 12
    && s[0] == 'X' && s[1] == sep && s[2] == 'R'
    && s[3] == (if upper then 'E' else 'e') && s[4] == (if upper then 'Q' else 'q')
    && s[5] == (if upper then 'U' else 'u') && s[6] == (if upper then 'E' else 'e')
    && s[7] == (if upper then 'S' else 's') && s[8] == (if upper then 'T' else 't')
    && s[9] == sep && s[10] == 'I' && s[11] == 'D'
  }

  lemma UpperOfRequestIdHeader(name: string)
    requires SpellsRequestId(name, '-', false)
    ensures SpellsRequestId(Upper(name), '-', true)
  {
  }

  lemma UnderscoresOfRequestIdHeader(upper: string)
    requires SpellsRequestId(upper, '-', true)
    ensures SpellsRequestId(ReplaceChar(upper, '-', '_'), '_', true)
  {
  }

  lemma EnvironKeyOfSpelledRequestId(name: string)
    requires SpellsRequestId(name, '-', false)
    ensures EnvironKey(name) == "HTTP_X_REQUEST_ID"
  {
    UpperOfRequestIdHeader(name);
    UnderscoresOfRequestIdHeader(Upper(name));
    var r := ReplaceChar(Upper(name), '-', '_');
    assert r == "X_REQUEST_ID";
  }

  /** The header `X-Request-ID` is found in the environ under `HTTP_X_REQUEST_ID`. */
  lemma RequestIdEnvironKey(name: string)
    requires name == "X-Request-ID"
    ensures EnvironKey(name) == "HTTP_X_REQUEST_ID"
  {
    assert SpellsRequestId(name, '-', false);
    EnvironKeyOfSpelledRequestId(name);
  }

  /** A WSGI environ dictionary, updated in place. */
  class Environ {
    var vars: map<string, string>

    constructor (vars: map<string, string>)
      ensures this.vars == vars
    {
      this.vars := vars;
    }
  }

  /** The list of response header pairs passed to `start_response`, appended to in place. */
  class ResponseHeaders {
    var items: seq<(string, string)>

    constructor (items: seq<(string, string)>)
      ensures this.items == items
    {
      this.items := items;
    }
  }

  /** The `new_start_response` closure of `__call__`: it captures the header name and the value
      computed for the request. */
  class NewStartResponse {
    const headerName: string
    const requestIdHeader: string

    constructor (headerName: string, requestIdHeader: string)
      ensures this.headerName == headerName && this.requestIdHeader == requestIdHeader
    {
      this.headerName := headerName;
      this.requestIdHeader := requestIdHeader;
    }

    /** Calling the closure: exactly one `(X-Request-ID, value)` pair is appended at the end, and
        the pairs already there are left as they were. */
    method Invoke(responseHeaders: ResponseHeaders)
      modifies responseHeaders
      ensures responseHeaders.items == old(responseHeaders.items) + [(headerName, requestIdHeader)]
    {
      responseHeaders.items := responseHeaders.items + [(headerName, requestIdHeader)];
    }
  }

  class RequestID {
    const uniqueValuePrefix: Option<string>
    const headerName: string
    const environKey: string

    /** The middleware with its trusted prefix, for the header `X-Request-ID`. */
    constructor (uniqueValuePrefix: Option<string>)
      ensures this.uniqueValuePrefix == uniqueValuePrefix
      ensures headerName == "X-Request-ID"
      ensures environKey == EnvironKey(headerName) && environKey == "HTTP_X_REQUEST_ID"
    {
      this.uniqueValuePrefix := uniqueValuePrefix;
      headerName := "X-Request-ID";
      environKey := EnvironKey("X-Request-ID");
      RequestIdEnvironKey("X-Request-ID");
    }

    /** `_compute_request_id_header`: scan the comma-separated tokens and return the header as it
        is at the first unique one; with none, append the generated ID. `random` stands for the
        16 bytes `uuid4()` draws. */
    method ComputeRequestIdHeader(headerValue: Option<string>, random: seq<Byte>) returns (r: string)
      requires |random| == 16
      ensures r == Reconcile(headerValue, uniqueValuePrefix, GenerateRequestId(random))
    {
      if headerValue.None? {
        return GenerateRequestId(random);
      }
      var h := headerValue.value;
      var headerValues := Split(h, ',');
      for i := 0 to |headerValues|
        invariant !AnyUnique(headerValues[..i], uniqueValuePrefix)
      {
        if RequestIdUnique(headerValues[i], uniqueValuePrefix) {
          assert AnyUnique(headerValues, uniqueValuePrefix);
          return h;
        }
        NoUniqueTokenExtends(headerValues, i, uniqueValuePrefix);
      }
      assert headerValues[..|headerValues|] == headerValues;
      r := h + "," + GenerateRequestId(random);
    }

    /** `__call__` up to the downstream application: the reconciled value replaces the environ
        entry of the header and nothing else in the environ changes. The `new_start_response`
        handed downstream is a fresh closure over that same value. */
    method Call(environ: Environ, random: seq<Byte>) returns (startResponse: NewStartResponse)
      requires |random| == 16
      modifies environ
      ensures fresh(startResponse)
      ensures startResponse.headerName == headerName
      ensures startResponse.requestIdHeader
           == Reconcile(Get(old(environ.vars), environKey), uniqueValuePrefix, GenerateRequestId(random))
      ensures AnyUnique(Split(startResponse.requestIdHeader, ','), uniqueValuePrefix)
      ensures environ.vars == old(environ.vars)[environKey := startResponse.requestIdHeader]
    {
      var requestIdHeader := ComputeRequestIdHeader(Get(environ.vars, environKey), random);
      environ.vars := environ.vars[environKey := requestIdHeader];
      ResultHasUniqueToken(Get(old(environ.vars), environKey), uniqueValuePrefix, GenerateRequestId(random));
      startResponse := new NewStartResponse(headerName, requestIdHeader);
    }

    /** One request through the middleware, with the downstream application calling the
        `start_response` it is given once: the response carries exactly the value stored in the
        environ for the application to read. */
    method HandleRequest(environ: Environ, responseHeaders: ResponseHeaders, random: seq<Byte>)
      requires |random| == 16
      modifies environ, responseHeaders
      ensures var v := Reconcile(Get(old(environ.vars), environKey), uniqueValuePrefix, GenerateRequestId(random));
              && environ.vars == old(environ.vars)[environKey := v]
              && responseHeaders.items == old(responseHeaders.items) + [(headerName, v)]
    {
      var startResponse := Call(environ, random);
      startResponse.Invoke(responseHeaders);
    }
  }
}
