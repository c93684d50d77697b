/**
 * The HTTP request wrapper: the request method and content type read from the
 * server variables, the headers (the server variables whose names start with
 * "HTTP"), and the posted data, which callers may read and overwrite.
 *
 * The server variables, the decoded JSON body and the form fields are given to
 * the constructor as entry sequences instead of being read from the process.
 */
module Requests {
  import opened Wrappers
  import opened Strings
  import opened Values
  import opened Arrays

  /** `$a[k]` on a read: the stored value, or null (with a warning) when `k` is undefined. */
  function Index(a: Entries<Value>, k: string): (v: Value)
    ensures HasKey(a, k) ==> Lookup(a, k) == Some(v)
    ensures !HasKey(a, k) ==> v == Null
  {
    match Lookup(a, k)
    case Some(x) => x
    case None => Null
  }

  /** The constructor's `$this->type == 'application/json'` under PHP 8 loose comparison. */
  function IsJsonType(t: Value): (b: bool)
    ensures b <==> t == Str("application/json") || t == Bool(true)
  {
    match t
    case Null => false
    case Bool(b) => b
    case Int(_) => false
    case Str(s) => s == "application/json"
    case Arr(_) => false
  }

  /** A server variable the constructor keeps as a header. */
  predicate IsHeaderName(k: string) {
    IsPrefix("HTTP", k)
  }

  /** The header table built by the constructor: the "HTTP..." server variables. */
  function HeaderEntries(server: Entries<Value>): (h: Entries<Value>)
    ensures forall e :: e in h <==> e in server && IsHeaderName(e.0)
    ensures DistinctKeys(server) ==> DistinctKeys(h)
  {
    var h := FilterKeys(server, IsHeaderName);
    assert DistinctKeys(server) ==> DistinctKeys(h) by {
      if DistinctKeys(server) {
        FilterKeysDistinct(server, IsHeaderName);
      }
    }
    h
  }

  /** A header reads as the server variable of the same name, and only names starting with "HTTP" are kept. */
  lemma LookupHeaderEntries(server: Entries<Value>, k: string)
    ensures Lookup(HeaderEntries(server), k) == if IsHeaderName(k) then Lookup(server, k) else None
  {
    LookupFilterKeys(server, IsHeaderName, k);
  }

  /** The prefixes of "HTTP_", which `str_starts_with('HTTP_', $header)` accepts. */
  lemma {:induction false} PrefixesOfHttp(u: string)
    ensures IsPrefix(u, "HTTP_") <==> u in ["", "H", "HT", "HTT", "HTTP", "HTTP_"]
  {
    if |u| <= 5 {
      assert "HTTP_"[..|u|] in ["", "H", "HT", "HTT", "HTTP", "HTTP_"] by {
        if |u| == 0 { assert "HTTP_"[..0] == ""; }
        else if |u| == 1 { assert "HTTP_"[..1] == "H"; }
        else if |u| == 2 { assert "HTTP_"[..2] == "HT"; }
        else if |u| == 3 { assert "HTTP_"[..3] == "HTT"; }
        else if |u| == 4 { assert "HTTP_"[..4] == "HTTP"; }
        else { assert "HTTP_"[..5] == "HTTP_"; }
      }
    }
  }

  /**
   * The key `headers($header)` looks up, as written: upper-cased, and prefixed
   * with "HTTP_" unless the upper-cased name is itself a prefix of "HTTP_".
   */
  function HeaderKey(name: string): (key: string)
    ensures key == Upper(name) || key == "HTTP_" + Upper(name)
  {
    var u := Upper(name);
    if !IsPrefix(u, "HTTP_") then "HTTP_" + u else u
  }

  /** Exactly the names whose upper-cased form is "", "H", "HT", "HTT", "HTTP" or "HTTP_" escape the prefix. */
  lemma HeaderKeyExactly(name: string)
    ensures HeaderKey(name) ==
      if Upper(name) in ["", "H", "HT", "HTT", "HTTP", "HTTP_"] then Upper(name) else "HTTP_" + Upper(name)
  {
    PrefixesOfHttp(Upper(name));
  }

  /**
   * The key the prefix test is evidently meant to build: "HTTP_" is added
   * only when the upper-cased name does not already start with it.
   */
  function IntendedHeaderKey(name: string): (key: string)
    ensures IsPrefix("HTTP_", key)
    ensures key == Upper(name) || key == "HTTP_" + Upper(name)
    ensures IsPrefix("HTTP_", Upper(name)) <==> key == Upper(name)
  {
    var u := Upper(name);
    if IsPrefix("HTTP_", u) then u else "HTTP_" + u
  }

  /** Upper-casing twice is upper-casing once. */
  lemma {:induction false} UpperIdempotent(s: string)
    ensures Upper(Upper(s)) == Upper(s)
  {
    forall i | 0 <= i < |s|
      ensures Upper(Upper(s))[i] == Upper(s)[i]
    {
      assert 'a' <= Upper(s)[i] <= 'z' ==> 'a' <= s[i] <= 'z';
    }
  }

  /** Looking up the intended key of an intended key gives the same key again. */
  lemma IntendedHeaderKeyIdempotent(name: string)
    ensures IntendedHeaderKey(IntendedHeaderKey(name)) == IntendedHeaderKey(name)
  {
    var u := Upper(name);
    UpperIdempotent(name);
    assert Upper("HTTP_") == "HTTP_";
    UpperAppend("HTTP_", u);
    assert ("HTTP_" + u)[..5] == "HTTP_";
  }

  /** `strtoupper` works character by character. */
  lemma {:induction false} UpperAppend(a: string, b: string)
    ensures Upper(a + b) == Upper(a) + Upper(b)
  {
    forall i | 0 <= i < |a + b|
      ensures Upper(a + b)[i] == (Upper(a) + Upper(b))[i]
    {
      if i >= |a| {
        assert (a + b)[i] == b[i - |a|];
      }
    }
  }

  /** For a name with neither form of the "HTTP_" prefix problem, the written and intended keys agree. */
  lemma HeaderKeyAgrees(name: string)
    requires !IsPrefix(Upper(name), "HTTP_") && !IsPrefix("HTTP_", Upper(name))
    ensures HeaderKey(name) == IntendedHeaderKey(name) == "HTTP_" + Upper(name)
  {
  }

  /** A name already written with the "HTTP_" prefix is prefixed a second time by the code as written. */
  lemma {:induction false} HeaderKeyDoublesPrefix(name: string)
    requires IsPrefix("HTTP_", Upper(name)) && |name| > 5
    ensures HeaderKey(name) == "HTTP_" + Upper(name)
    ensures IntendedHeaderKey(name) == Upper(name)
    ensures HeaderKey(name) != IntendedHeaderKey(name)
  {
    LongNotPrefix(Upper(name));
  }

  /** A name longer than "HTTP_" is not one of its prefixes, and prefixing it changes it. */
  lemma LongNotPrefix(u: string)
    requires |u| > 5
    ensures !IsPrefix(u, "HTTP_") && "HTTP_" + u != u
  {
    assert |"HTTP_" + u| != |u|;
  }

  /** The literal facts behind the `http_host` example, one small lemma each. */
  lemma UpperHttpHost()
    ensures Upper("http_host") == "HTTP_HOST"
  {
    HttpHostHalves();
    UpperHttp();
    UpperHost();
    UpperAppend("http_", "host");
  }

  lemma HttpHostHalves()
    ensures "http_" + "host" == "http_host"
    ensures "HTTP_" + "HOST" == "HTTP_HOST"
  {
  }

  lemma UpperHttp()
    ensures Upper("http_") == "HTTP_"
  {
  }

  lemma UpperHost()
    ensures Upper("host") == "HOST"
  {
  }

  lemma HttpHostLiterals()
    ensures IsPrefix("HTTP_", "HTTP_HOST")
    ensures "HTTP_" + "HTTP_HOST" == "HTTP_HTTP_HOST"
  {
    assert "HTTP_HOST"[..5] == "HTTP_";
  }

  /** `headers('http_host')` asks for "HTTP_HTTP_HOST" instead of "HTTP_HOST". */
  lemma HttpHostKey(name: string)
    requires name == "http_host"
    ensures HeaderKey(name) == "HTTP_HTTP_HOST"
    ensures IntendedHeaderKey(name) == "HTTP_HOST"
  {
    UpperHttpHost();
    HttpHostLiterals();
    HeaderKeyDoublesPrefix(name);
  }

  /** A name whose upper-cased form does not start with 'H' is always prefixed. */
  lemma NotStartingWithH(u: string)
    requires |u| > 0 && u[0] != 'H'
    ensures !IsPrefix(u, "HTTP_") && !IsPrefix("HTTP_", u)
  {
    assert u[..1] != "HTTP_"[..1];
  }

  /** The literal facts behind the `content_type` example, one small lemma each. */
  lemma UpperContentType()
    ensures Upper("content_type") == "CONTENT_TYPE"
  {
    ContentTypeHalves();
    UpperContent();
    UpperType();
    UpperAppend("content", "_type");
  }

  lemma ContentTypeHalves()
    ensures "content" + "_type" == "content_type"
    ensures "CONTENT" + "_TYPE" == "CONTENT_TYPE"
  {
  }

  lemma UpperContent()
    ensures Upper("content") == "CONTENT"
  {
  }

  lemma UpperType()
    ensures Upper("_type") == "_TYPE"
  {
  }

  lemma PrefixedContentType()
    ensures "HTTP_" + "CONTENT_TYPE" == "HTTP_CONTENT_TYPE"
  {
  }

  /** `headers('content_type')` asks for "HTTP_CONTENT_TYPE". */
  lemma ContentTypeKey(name: string)
    requires name == "content_type"
    ensures HeaderKey(name) == "HTTP_CONTENT_TYPE"
  {
    UpperContentType();
    PrefixedContentType();
    NotStartingWithH(Upper(name));
    HeaderKeyAgrees(name);
  }

  /** `headers('http_')` and `headers('h')` ask for "HTTP_" and "H", without the prefix. */
  lemma UnprefixedKeys()
    ensures HeaderKey("http_") == "HTTP_"
    ensures HeaderKey("h") == "H"
  {
    assert Upper("http_") == "HTTP_";
    assert Upper("h") == "H";
    HeaderKeyExactly("http_");
    HeaderKeyExactly("h");
  }

  class Request {
    /** `$_SERVER['REQUEST_METHOD']`, null when the variable is missing. */
    var requestMethod: Value
    /** `$_SERVER['HTTP_CONTENT_TYPE']`, null when the variable is missing. */
    var contentType: Value
    var requestHeaders: Entries<Value>
    var postedData: Entries<Value>

    /**
     * Every stored header is a server variable whose name starts with "HTTP",
     * and, as in every PHP array, no key occurs twice.
     */
    ghost predicate Valid()
      reads this
    {
      (forall e :: e in requestHeaders ==> IsHeaderName(e.0)) &&
      DistinctKeys(requestHeaders) && DistinctKeys(postedData)
    }

    /**
     * `server` stands for `$_SERVER`, `jsonBody` for the decoded request body
     * and `form` for `$_POST`.
     */
    constructor(server: Entries<Value>, jsonBody: Entries<Value>, form: Entries<Value>)
      requires DistinctKeys(server) && DistinctKeys(jsonBody) && DistinctKeys(form)
      ensures Valid()
      ensures requestMethod == Index(server, "REQUEST_METHOD")
      ensures contentType == Index(server, "HTTP_CONTENT_TYPE")
      ensures forall e :: e in requestHeaders <==> e in server && IsHeaderName(e.0)
      ensures requestHeaders == HeaderEntries(server)
      ensures postedData == if IsJsonType(contentType) then jsonBody else form
    {
      requestMethod := Index(server, "REQUEST_METHOD");
      contentType := Index(server, "HTTP_CONTENT_TYPE");
      requestHeaders := HeaderEntries(server);
      var t := Index(server, "HTTP_CONTENT_TYPE");
      if IsJsonType(t) {
        postedData := jsonBody;
      } else {
        postedData := form;
      }
    }

    /** `__set`: `$request->name = value` writes the posted parameter and nothing else. */
    method Set(name: string, value: Value)
      requires Valid()
      modifies this`postedData
      ensures Valid()
      ensures postedData == Put(old(postedData), name, value)
      ensures Input(name) == if name == "" then Arr(postedData) else value
      ensures forall k :: k != name ==> Lookup(postedData, k) == Lookup(old(postedData), k)
      ensures Keys(postedData) == if HasKey(old(postedData), name) then Keys(old(postedData)) else Keys(old(postedData)) + [name]
    {
      postedData := Put(postedData, name, value);
      PutDistinct(old(postedData), name, value);
      LookupPut(old(postedData), name, value, name);
      forall k | k != name
        ensures Lookup(postedData, k) == Lookup(old(postedData), k)
      {
        LookupPut(old(postedData), name, value, k);
      }
      KeysPut(old(postedData), name, value);
    }

    /**
     * `__get`: the posted parameter, or null when it is not set. Since `isset`
     * is false only for a missing key or a null value, this is the stored
     * value whenever the key exists.
     */
    function Get(name: string): (v: Value)
      reads this
      ensures HasKey(postedData, name) ==> Lookup(postedData, name) == Some(v)
      ensures !HasKey(postedData, name) ==> v == Null
    {
      match Lookup(postedData, name)
      case Some(x) => if x != Null then x else Null
      case None => Null
    }

    /** `input`: every posted parameter for the empty name, else the one named, or null. */
    function Input(name: string): (v: Value)
      reads this
      ensures name == "" ==> v == Arr(postedData)
      ensures name != "" && HasKey(postedData, name) ==> Lookup(postedData, name) == Some(v)
      ensures name != "" && !HasKey(postedData, name) ==> v == Null
    {
      if name != "" then Index(postedData, name) else Arr(postedData)
    }

    /** `method`. */
    function Method(): (m: Value)
      reads this
      ensures m == requestMethod
    {
      requestMethod
    }

    /** `isMethod`: strict comparison of the stored method with `m`. */
    function IsMethod(m: string): (b: bool)
      reads this
      ensures b <==> Method() == Str(m)
    {
      requestMethod == Str(m)
    }

    /**
     * `headers`: every header for the empty name, else the header stored under
     * `HeaderKey(header)`, or null when there is none.
     */
    function Headers(header: string): (v: Value)
      reads this
      ensures header == "" ==> v == Arr(requestHeaders)
      ensures header != "" && HasKey(requestHeaders, HeaderKey(header)) ==>
        Lookup(requestHeaders, HeaderKey(header)) == Some(v)
      ensures header != "" && !HasKey(requestHeaders, HeaderKey(header)) ==> v == Null
    {
      if header != "" then Index(requestHeaders, HeaderKey(header)) else Arr(requestHeaders)
    }

    /** `headers` with the intended key, for comparison with the code as written. */
    function IntendedHeaders(header: string): (v: Value)
      reads this
      ensures header == "" ==> v == Arr(requestHeaders)
      ensures header != "" && HasKey(requestHeaders, IntendedHeaderKey(header)) ==>
        Lookup(requestHeaders, IntendedHeaderKey(header)) == Some(v)
      ensures header != "" && !HasKey(requestHeaders, IntendedHeaderKey(header)) ==> v == Null
    {
      if header != "" then Index(requestHeaders, IntendedHeaderKey(header)) else Arr(requestHeaders)
    }
  }

  /** A key that does not start with "HTTP" is never among the stored headers. */
  lemma NonHeaderKeyAbsent(r: Request, key: string)
    requires r.Valid() && !IsHeaderName(key)
    ensures !HasKey(r.requestHeaders, key)
  {
    var ks := Keys(r.requestHeaders);
    forall i | 0 <= i < |ks|
      ensures ks[i] != key
    {
      assert r.requestHeaders[i] in r.requestHeaders;
    }
  }

  /** `headers('h')`, `headers('ht')` and `headers('htt')` are never found. */
  lemma ShortNamesNeverFound(r: Request, name: string)
    requires r.Valid() && Upper(name) in ["H", "HT", "HTT"]
    ensures r.Headers(name) == Null
  {
    HeaderKeyExactly(name);
    NonHeaderKeyAbsent(r, Upper(name));
  }

  /** A header sent as "Host" is found both by `headers('host')` and by the intended lookup. */
  lemma HostFoundEitherWay(r: Request, host: Value)
    requires r.Valid() && r.requestHeaders == [("HTTP_HOST", host)]
    ensures r.Headers("host") == host
    ensures r.IntendedHeaders("host") == host
  {
    assert Upper("host") == "HOST";
    HeaderKeyAgrees("host");
  }

  /** Asking for the header by its server-variable name "http_host" misses it, the intended lookup finds it. */
  lemma HttpHostMissed(r: Request, host: Value)
    requires r.Valid() && r.requestHeaders == [("HTTP_HOST", host)]
    ensures r.Headers("http_host") == Null
    ensures r.IntendedHeaders("http_host") == host
  {
    HttpHostKey("http_host");
  }

  /** The intended lookup always asks for a name the header table can hold. */
  lemma IntendedKeyIsHeaderName(name: string)
    ensures IsHeaderName(IntendedHeaderKey(name))
  {
  }

  /** For a non-empty name `__get` and `input` return the same value. */
  lemma GetEqualsInput(r: Request, name: string)
    requires name != ""
    ensures r.Get(name) == r.Input(name)
  {
  }

  /** At most one method name is accepted by `isMethod`. */
  lemma IsMethodUnique(r: Request, m1: string, m2: string)
    requires r.IsMethod(m1) && r.IsMethod(m2)
    ensures m1 == m2
  {
  }

  /** A POST request is not recognised by `isMethod('post')`. */
  lemma IsMethodCaseSensitive(r: Request)
    requires r.Method() == Str("POST")
    ensures r.IsMethod("POST") && !r.IsMethod("post")
  {
  }
}
