/**
 The numbers of the headers, and which name each stands for.
 */
module HeaderNumbers {
  import opened HeaderTable

  const HTTP_ACCEPT := 0
  const HTTP_ACCEPT_CHARSET := 1
  const HTTP_ACCEPT_ENCODING := 2
  const HTTP_ACCEPT_LANGUAGE := 3
  const HTTP_ACCEPT_RANGES := 4
  const HTTP_ACCESS_CONTROL_ALLOW_CREDENTIALS := 5
  const HTTP_ACCESS_CONTROL_ALLOW_HEADERS := 6
  const HTTP_ACCESS_CONTROL_ALLOW_METHODS := 7
  const HTTP_ACCESS_CONTROL_ALLOW_ORIGIN := 8
  const HTTP_ACCESS_CONTROL_EXPOSE_HEADERS := 9
  const HTTP_ACCESS_CONTROL_MAX_AGE := 10
  const HTTP_ACCESS_CONTROL_REQUEST_HEADERS := 11
  const HTTP_ACCESS_CONTROL_REQUEST_METHOD := 12
  const HTTP_AGE := 13
  const HTTP_ALLOW := 14
  const HTTP_AUTHORIZATION := 15
  const HTTP_CACHE_CONTROL := 16
  const HTTP_CONNECTION := 17
  const HTTP_CONTENT_DISPOSITION := 18
  const HTTP_CONTENT_ENCODING := 19
  const HTTP_CONTENT_LANGUAGE := 20
  const HTTP_CONTENT_LENGTH := 21
  const HTTP_CONTENT_LOCATION := 22
  const HTTP_CONTENT_RANGE := 23
  const HTTP_CONTENT_SECURITY_POLICY := 24
  const HTTP_CONTENT_SECURITY_POLICY_REPORT_ONLY := 25
  const HTTP_CONTENT_TYPE := 26
  const HTTP_COOKIE := 27
  const HTTP_COOKIE2 := 28
  const HTTP_DNT := 29
  const HTTP_DATE := 30
  const HTTP_ETAG := 31
  const HTTP_EXPECT := 32
  const HTTP_EXPECT_CT := 33
  const HTTP_EXPIRES := 34
  const HTTP_FORWARDED := 35
  const HTTP_FROM := 36
  const HTTP_HOST := 37
  const HTTP_IF_MATCH := 38
  const HTTP_IF_MODIFIED_SINCE := 39
  const HTTP_IF_NONE_MATCH := 40
  const HTTP_IF_RANGE := 41
  const HTTP_IF_UNMODIFIED_SINCE := 42
  const HTTP_KEEP_ALIVE := 43
  const HTTP_LARGE_ALLOCATION := 44
  const HTTP_LAST_MODIFIED := 45
  const HTTP_LOCATION := 46
  const HTTP_ORIGIN := 47
  const HTTP_PRAGMA := 48
  const HTTP_PROXY_AUTHENTICATE := 49
  const HTTP_PROXY_AUTHORIZATION := 50
  const HTTP_PUBLIC_KEY_PINS := 51
  const HTTP_PUBLIC_KEY_PINS_REPORT_ONLY := 52
  const HTTP_RANGE := 53
  const HTTP_REFERER := 54
  const HTTP_REFERRER_POLICY := 55
  const HTTP_RETRY_AFTER := 56
  const HTTP_SERVER := 57
  const HTTP_SERVER_TIMING := 58
  const HTTP_SET_COOKIE := 59
  const HTTP_SET_COOKIE2 := 60
  const HTTP_SOURCEMAP := 61
  const HTTP_STRICT_TRANSPORT_SECURITY := 62
  const HTTP_TE := 63
  const HTTP_TIMING_ALLOW_ORIGIN := 64
  const HTTP_TK := 65
  const HTTP_TRAILER := 66
  const HTTP_TRANSFER_ENCODING := 67
  const HTTP_UPGRADE_INSECURE_REQUESTS := 68
  const HTTP_USER_AGENT := 69
  const HTTP_VARY := 70
  const HTTP_VIA := 71
  const HTTP_WWW_AUTHENTICATE := 72
  const HTTP_WARNING := 73
  const HTTP_X_CONTENT_TYPE_OPTIONS := 74
  const HTTP_X_DNS_PREFETCH_CONTROL := 75
  const HTTP_X_FORWARDED_FOR := 76
  const HTTP_X_FORWARDED_HOST := 77
  const HTTP_X_FORWARDED_PROTO := 78
  const HTTP_X_FRAME_OPTIONS := 79
  const HTTP_X_XSS_PROTECTION := 80

  predicate IsAt(number: nat, name: string) {
    number < |HeaderStrings()| && HeaderStrings()[number] == name
  }

  /** Nine names in a row, from number 9 * part on. */
  ghost predicate PartAt(names: seq<string>, part: nat) {
    |names| == 9 && forall j :: 0 <= j < 9 ==> IsAt(9 * part + j, names[j])
  }

  lemma NineNames(names: seq<string>, part: nat)
    requires PartAt(names, part)
    ensures
      && |names| == 9 && IsAt(9 * part, names[0]) && IsAt(9 * part + 1, names[1]) && IsAt(9 * part + 2, names[2])
      && IsAt(9 * part + 3, names[3]) && IsAt(9 * part + 4, names[4]) && IsAt(9 * part + 5, names[5])
      && IsAt(9 * part + 6, names[6]) && IsAt(9 * part + 7, names[7]) && IsAt(9 * part + 8, names[8])
  {
    hide IsAt;
  }

  lemma PartsOfTheTable()
    ensures PartAt(Names1(), 0) && PartAt(Names2(), 1) && PartAt(Names3(), 2) && PartAt(Names4(), 3)
    ensures PartAt(Names5(), 4) && PartAt(Names6(), 5) && PartAt(Names7(), 6) && PartAt(Names8(), 7)
    ensures PartAt(Names9(), 8)
  {
    hide PartAt, HeaderStrings;
    FirstParts();
    LastParts();
  }

  lemma FirstParts()
    ensures PartAt(Names1(), 0) && PartAt(Names2(), 1) && PartAt(Names3(), 2) && PartAt(Names4(), 3)
    ensures PartAt(Names5(), 4)
  {
    assert |Names1()| == |Names2()| == |Names3()| == |Names4()| == |Names5()| == 9;
    hide Names1, Names2, Names3, Names4, Names5, Names6, Names7, Names8, Names9;
  }

  lemma LastParts()
    ensures PartAt(Names6(), 5) && PartAt(Names7(), 6) && PartAt(Names8(), 7) && PartAt(Names9(), 8)
  {
    assert |Names1()| == |Names2()| == |Names3()| == |Names4()| == |Names5()| == 9;
    assert |Names6()| == |Names7()| == |Names8()| == |Names9()| == 9;
    hide Names1, Names2, Names3, Names4, Names5, Names6, Names7, Names8, Names9;
  }

  lemma Numbers1()
    ensures IsAt(HTTP_ACCEPT, "Accept")
    ensures IsAt(HTTP_ACCEPT_CHARSET, "Accept-Charset")
    ensures IsAt(HTTP_ACCEPT_ENCODING, "Accept-Encoding")
    ensures IsAt(HTTP_ACCEPT_LANGUAGE, "Accept-Language")
    ensures IsAt(HTTP_ACCEPT_RANGES, "Accept-Ranges")
    ensures IsAt(HTTP_ACCESS_CONTROL_ALLOW_CREDENTIALS, "Access-Control-Allow-Credentials")
    ensures IsAt(HTTP_ACCESS_CONTROL_ALLOW_HEADERS, "Access-Control-Allow-Headers")
    ensures IsAt(HTTP_ACCESS_CONTROL_ALLOW_METHODS, "Access-Control-Allow-Methods")
    ensures IsAt(HTTP_ACCESS_CONTROL_ALLOW_ORIGIN, "Access-Control-Allow-Origin")
  {
    hide IsAt;
    PartsOfTheTable();
    NineNames(Names1(), 0);
  }

  lemma Numbers2()
    ensures IsAt(HTTP_ACCESS_CONTROL_EXPOSE_HEADERS, "Access-Control-Expose-Headers")
    ensures IsAt(HTTP_ACCESS_CONTROL_MAX_AGE, "Access-Control-Max-Age")
    ensures IsAt(HTTP_ACCESS_CONTROL_REQUEST_HEADERS, "Access-Control-Request-Headers")
    ensures IsAt(HTTP_ACCESS_CONTROL_REQUEST_METHOD, "Access-Control-Request-Method")
    ensures IsAt(HTTP_AGE, "Age")
    ensures IsAt(HTTP_ALLOW, "Allow")
    ensures IsAt(HTTP_AUTHORIZATION, "Authorization")
    ensures IsAt(HTTP_CACHE_CONTROL, "Cache-Control")
    ensures IsAt(HTTP_CONNECTION, "Connection")
  {
    hide IsAt;
    PartsOfTheTable();
    NineNames(Names2(), 1);
  }

  lemma Numbers3()
    ensures IsAt(HTTP_CONTENT_DISPOSITION, "Content-Disposition")
    ensures IsAt(HTTP_CONTENT_ENCODING, "Content-Encoding")
    ensures IsAt(HTTP_CONTENT_LANGUAGE, "Content-Language")
    ensures IsAt(HTTP_CONTENT_LENGTH, "Content-Length")
    ensures IsAt(HTTP_CONTENT_LOCATION, "Content-Location")
    ensures IsAt(HTTP_CONTENT_RANGE, "Content-Range")
    ensures IsAt(HTTP_CONTENT_SECURITY_POLICY, "Content-Security-Policy")
    ensures IsAt(HTTP_CONTENT_SECURITY_POLICY_REPORT_ONLY, "Content-Security-Policy-Report-Only")
    ensures IsAt(HTTP_CONTENT_TYPE, "Content-Type")
  {
    hide IsAt;
    PartsOfTheTable();
    NineNames(Names3(), 2);
  }

  lemma Numbers4()
    ensures IsAt(HTTP_COOKIE, "Cookie")
    ensures IsAt(HTTP_COOKIE2, "Cookie2")
    ensures IsAt(HTTP_DNT, "DNT")
    ensures IsAt(HTTP_DATE, "Date")
    ensures IsAt(HTTP_ETAG, "ETag")
    ensures IsAt(HTTP_EXPECT, "Expect")
    ensures IsAt(HTTP_EXPECT_CT, "Expect-CT")
    ensures IsAt(HTTP_EXPIRES, "Expires")
    ensures IsAt(HTTP_FORWARDED, "Forwarded")
  {
    hide IsAt;
    PartsOfTheTable();
    NineNames(Names4(), 3);
  }

  lemma Numbers5()
    ensures IsAt(HTTP_FROM, "From")
    ensures IsAt(HTTP_HOST, "Host")
    ensures IsAt(HTTP_IF_MATCH, "If-Match")
    ensures IsAt(HTTP_IF_MODIFIED_SINCE, "If-Modified-Since")
    ensures IsAt(HTTP_IF_NONE_MATCH, "If-None-Match")
    ensures IsAt(HTTP_IF_RANGE, "If-Range")
    ensures IsAt(HTTP_IF_UNMODIFIED_SINCE, "If-Unmodified-Since")
    ensures IsAt(HTTP_KEEP_ALIVE, "Keep-Alive")
    ensures IsAt(HTTP_LARGE_ALLOCATION, "Large-Allocation")
  {
    hide IsAt;
    PartsOfTheTable();
    NineNames(Names5(), 4);
  }

  lemma Numbers6()
    ensures IsAt(HTTP_LAST_MODIFIED, "Last-Modified")
    ensures IsAt(HTTP_LOCATION, "Location")
    ensures IsAt(HTTP_ORIGIN, "Origin")
    ensures IsAt(HTTP_PRAGMA, "Pragma")
    ensures IsAt(HTTP_PROXY_AUTHENTICATE, "Proxy-Authenticate")
    ensures IsAt(HTTP_PROXY_AUTHORIZATION, "Proxy-Authorization")
    ensures IsAt(HTTP_PUBLIC_KEY_PINS, "Public-Key-Pins")
    ensures IsAt(HTTP_PUBLIC_KEY_PINS_REPORT_ONLY, "Public-Key-Pins-Report-Only")
    ensures IsAt(HTTP_RANGE, "Range")
  {
    hide IsAt;
    PartsOfTheTable();
    NineNames(Names6(), 5);
  }

  lemma Numbers7()
    ensures IsAt(HTTP_REFERER, "Referer")
    ensures IsAt(HTTP_REFERRER_POLICY, "Referrer-Policy")
    ensures IsAt(HTTP_RETRY_AFTER, "Retry-After")
    ensures IsAt(HTTP_SERVER, "Server")
    ensures IsAt(HTTP_SERVER_TIMING, "Server-Timing")
    ensures IsAt(HTTP_SET_COOKIE, "Set-Cookie")
    ensures IsAt(HTTP_SET_COOKIE2, "Set-Cookie2")
    ensures IsAt(HTTP_SOURCEMAP, "SourceMap")
    ensures IsAt(HTTP_STRICT_TRANSPORT_SECURITY, "Strict-Transport-Security")
  {
    hide IsAt;
    PartsOfTheTable();
    NineNames(Names7(), 6);
  }

  lemma Numbers8()
    ensures IsAt(HTTP_TE, "TE")
    ensures IsAt(HTTP_TIMING_ALLOW_ORIGIN, "Timing-Allow-Origin")
    ensures IsAt(HTTP_TK, "Tk")
    ensures IsAt(HTTP_TRAILER, "Trailer")
    ensures IsAt(HTTP_TRANSFER_ENCODING, "Transfer-Encoding")
    ensures IsAt(HTTP_UPGRADE_INSECURE_REQUESTS, "Upgrade-Insecure-Requests")
    ensures IsAt(HTTP_USER_AGENT, "User-Agent")
    ensures IsAt(HTTP_VARY, "Vary")
    ensures IsAt(HTTP_VIA, "Via")
  {
    hide IsAt;
    PartsOfTheTable();
    NineNames(Names8(), 7);
  }

  lemma Numbers9()
    ensures IsAt(HTTP_WWW_AUTHENTICATE, "WWW-Authenticate")
    ensures IsAt(HTTP_WARNING, "Warning")
    ensures IsAt(HTTP_X_CONTENT_TYPE_OPTIONS, "X-Content-Type-Options")
    ensures IsAt(HTTP_X_DNS_PREFETCH_CONTROL, "X-DNS-Prefetch-Control")
    ensures IsAt(HTTP_X_FORWARDED_FOR, "X-Forwarded-For")
    ensures IsAt(HTTP_X_FORWARDED_HOST, "X-Forwarded-Host")
    ensures IsAt(HTTP_X_FORWARDED_PROTO, "X-Forwarded-Proto")
    ensures IsAt(HTTP_X_FRAME_OPTIONS, "X-Frame-Options")
    ensures IsAt(HTTP_X_XSS_PROTECTION, "X-XSS-Protection")
  {
    hide IsAt;
    PartsOfTheTable();
    NineNames(Names9(), 8);
  }
}
