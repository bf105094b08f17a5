/**
 The request paths the ElasticSearch client builds before each HTTP call.

 The client formats `str` of every path component, joins them with "/" and
 puts the result after its base address. Only the strings are modelled here;
 issuing the request is not.
 */
module Urls {

  /** The address of the local search service the client talks to. */
  const LOCAL_URL: string := "http://localhost:9200"

  /** Python's `sep.join(parts)`. */
  function Join(sep: string, parts: seq<string>): string
  {
    if |parts| == 0 then ""
    else if |parts| == 1 then parts[0]
    else parts[0] + sep + Join(sep, parts[1..])
  }

  predicate IsDigit(c: char)
  {
    '0' <= c <= '9'
  }

  predicate AllDigits(s: string)
  {
    forall k :: 0 <= k < |s| ==> IsDigit(s[k])
  }

  /** At least one decimal digit, with no leading zero unless the whole string is "0". */
  predicate CanonicalDigits(s: string)
  {
    |s| > 0 && AllDigits(s) && (s[0] == '0' ==> |s| == 1)
  }

  /**
   What Python's `str` produces for an int: canonical digits, optionally
   after a minus sign; never "-0".
   */
  predicate IsIntLiteral(s: string)
  {
    if |s| > 0 && s[0] == '-' then CanonicalDigits(s[1..]) && s[1..] != "0" else CanonicalDigits(s)
  }

  function DigitChar(d: nat): (c: char)
    requires d < 10
    ensures IsDigit(c)
  {
    ('0' as int + d) as char
  }

  function DigitValue(c: char): nat
    requires IsDigit(c)
  {
    c as int - '0' as int
  }

  /** Decimal digits of a natural number, most significant first. */
  function NatToString(n: nat): (s: string)
    ensures CanonicalDigits(s)
    ensures s == "0" <==> n == 0
  {
    if n < 10 then [DigitChar(n)] else NatToString(n / 10) + [DigitChar(n % 10)]
  }

  /** Python's `str(n)` for an int `n`. */
  function IntToString(n: int): string
  {
    if n < 0 then "-" + NatToString(-n) else NatToString(n)
  }

  /** `str` of an int is in canonical form: no leading zero, no "-0". */
  lemma IntToStringIsLiteral(n: int)
    ensures IsIntLiteral(IntToString(n))
  {
    if n < 0 {
      assert IntToString(n)[1..] == NatToString(-n);
    }
  }

  /** Value of a string of decimal digits; partner of NatToString. */
  function DigitsValue(s: string): nat
    requires AllDigits(s)
  {
    if s == [] then 0 else DigitsValue(s[..|s| - 1]) * 10 + DigitValue(s[|s| - 1])
  }

  /** Python's `int(s)` restricted to the strings `str` produces. */
  function ParseInt(s: string): int
    requires IsIntLiteral(s)
  {
    if s[0] == '-' then var v: int := DigitsValue(s[1..]); -v else DigitsValue(s)
  }

  lemma {:induction false} NatToStringRoundTrip(n: nat)
    ensures DigitsValue(NatToString(n)) == n
  {
    if n >= 10 {
      var s := NatToString(n);
      assert s[..|s| - 1] == NatToString(n / 10);
      NatToStringRoundTrip(n / 10);
    }
  }

  /** `int(str(n)) == n`. */
  lemma IntToStringRoundTrip(n: int)
    ensures IsIntLiteral(IntToString(n)) && ParseInt(IntToString(n)) == n
  {
    IntToStringIsLiteral(n);
    if n < 0 {
      NatToStringRoundTrip(-n);
      assert IntToString(n)[1..] == NatToString(-n);
    } else {
      NatToStringRoundTrip(n);
    }
  }

  lemma IntToStringInjective(a: int, b: int)
    ensures IntToString(a) == IntToString(b) ==> a == b
  {
    IntToStringRoundTrip(a);
    IntToStringRoundTrip(b);
  }

  /** The URL `put` sends the record to: `base/index/type/id/`, with a trailing slash. */
  function PutUrl(base: string, eIndex: string, eType: string, eId: int): string
  {
    base + "/" + Join("/", [eIndex, eType, IntToString(eId)]) + "/"
  }

  /** The URL `get` reads the record from: `base/index/type/id`. */
  function GetUrl(base: string, eIndex: string, eType: string, eId: int): string
  {
    base + "/" + Join("/", [eIndex, eType, IntToString(eId)])
  }

  const SEARCH_INFIX: string := "/_search?q="
  const SEARCH_SUFFIX: string := "&pretty=true"

  /** The URL `simple_search` queries: `base/index/type/_search?q=query&pretty=true`. */
  function SearchUrl(base: string, eIndex: string, eType: string, query: string): string
  {
    base + "/" + Join("/", [eIndex, eType]) + SEARCH_INFIX + query + SEARCH_SUFFIX
  }

  lemma JoinThree(sep: string, a: string, b: string, c: string)
    ensures Join(sep, [a, b, c]) == a + sep + b + sep + c
  {
    assert [a, b, c][1..] == [b, c];
    assert [b, c][1..] == [c];
    assert Join(sep, [b, c]) == b + sep + c;
    assert Join(sep, [a, b, c]) == a + sep + (b + sep + c);
  }

  lemma PutUrlShape(base: string, eIndex: string, eType: string, eId: int)
    ensures PutUrl(base, eIndex, eType, eId)
         == base + "/" + eIndex + "/" + eType + "/" + IntToString(eId) + "/"
  {
    JoinThree("/", eIndex, eType, IntToString(eId));
  }

  lemma GetUrlShape(base: string, eIndex: string, eType: string, eId: int)
    ensures GetUrl(base, eIndex, eType, eId)
         == base + "/" + eIndex + "/" + eType + "/" + IntToString(eId)
  {
    JoinThree("/", eIndex, eType, IntToString(eId));
  }

  /** The get URL is the put URL without its trailing slash. */
  lemma PutUrlIsGetUrlWithSlash(base: string, eIndex: string, eType: string, eId: int)
    ensures PutUrl(base, eIndex, eType, eId) == GetUrl(base, eIndex, eType, eId) + "/"
  {
  }

  lemma SearchUrlShape(base: string, eIndex: string, eType: string, query: string)
    ensures SearchUrl(base, eIndex, eType, query)
         == base + "/" + eIndex + "/" + eType + "/_search?q=" + query + "&pretty=true"
  {
    assert [eIndex, eType][1..] == [eType];
    assert Join("/", [eIndex, eType]) == eIndex + "/" + eType;
  }

  /**
   The query is inserted verbatim: it can be cut back out of the search URL
   between the fixed prefix and the fixed suffix, whatever characters it holds.
   */
  lemma SearchQueryUnescaped(base: string, eIndex: string, eType: string, query: string)
    ensures var u := SearchUrl(base, eIndex, eType, query);
            var p := |base| + 1 + |eIndex| + 1 + |eType| + |SEARCH_INFIX|;
            |u| == p + |query| + |SEARCH_SUFFIX| && u[p..p + |query|] == query
  {
    SearchUrlShape(base, eIndex, eType, query);
    var u := SearchUrl(base, eIndex, eType, query);
    var prefix := base + "/" + eIndex + "/" + eType + SEARCH_INFIX;
    assert u == prefix + query + SEARCH_SUFFIX;
  }

  /** Two different ids under one index and type never share a put URL. */
  lemma PutUrlInjective(base: string, eIndex: string, eType: string, a: int, b: int)
    ensures PutUrl(base, eIndex, eType, a) == PutUrl(base, eIndex, eType, b) ==> a == b
  {
    PutUrlShape(base, eIndex, eType, a);
    PutUrlShape(base, eIndex, eType, b);
    var prefix := base + "/" + eIndex + "/" + eType + "/";
    var sa, sb := IntToString(a), IntToString(b);
    if PutUrl(base, eIndex, eType, a) == PutUrl(base, eIndex, eType, b) {
      assert prefix + sa + "/" == prefix + sb + "/";
      assert |sa| == |sb|;
      assert sa == (prefix + sa + "/")[|prefix|..|prefix| + |sa|];
      assert sb == (prefix + sb + "/")[|prefix|..|prefix| + |sb|];
      IntToStringInjective(a, b);
    }
  }
}
