/** Two string helpers of the HTTP and IPFS clients: GetDomainFromURL, which
    strips the scheme from a URL, and ipfs_header_value, which reads one
    header's value out of a block of response headers. Both are written with
    std::string's search members, modelled here by Find, FindFirstOf and
    FindFirstNotOf (None standing for npos). */
module TextHelpers {
  import opened NetTypes

  predicate MatchAt(s: string, pat: string, i: nat)
  {
    i + |pat| <= |s| && s[i..i + |pat|] == pat
  }

  /** std::string::find: the first position at or after from where pat
      occurs. */
  function Find(s: string, pat: string, from: nat): (r: Option<nat>)
    ensures r.Some? ==> from <= r.value && MatchAt(s, pat, r.value)
    ensures r.Some? ==> forall j | from <= j < r.value :: !MatchAt(s, pat, j)
    ensures r.None? ==> forall j | from <= j :: !MatchAt(s, pat, j)
    decreases |s| - from
  {
    if from + |pat| > |s| then None
    else if s[from..from + |pat|] == pat then Some(from)
    else Find(s, pat, from + 1)
  }

  /** std::string::find_first_not_of: the first position at or after from
      whose character is not in chars. */
  function FindFirstNotOf(s: string, chars: set<char>, from: nat): (r: Option<nat>)
    ensures r.Some? ==> from <= r.value < |s| && s[r.value] !in chars
    ensures r.Some? ==> forall j | from <= j < r.value :: s[j] in chars
    ensures r.None? ==> forall j | from <= j < |s| :: s[j] in chars
    decreases |s| - from
  {
    if from >= |s| then None
    else if s[from] !in chars then Some(from)
    else FindFirstNotOf(s, chars, from + 1)
  }

  /** std::string::find_first_of: the first position at or after from whose
      character is in chars. */
  function FindFirstOf(s: string, chars: set<char>, from: nat): (r: Option<nat>)
    ensures r.Some? ==> from <= r.value < |s| && s[r.value] in chars
    ensures r.Some? ==> forall j | from <= j < r.value :: s[j] !in chars
    ensures r.None? ==> forall j | from <= j < |s| :: s[j] !in chars
    decreases |s| - from
  {
    if from >= |s| then None
    else if s[from] in chars then Some(from)
    else FindFirstOf(s, chars, from + 1)
  }

  // ---------------------------------------------------------------------
  // GetDomainFromURL

  const HTTPS: string := "https://"
  const HTTP: string := "http://"

  /** GetDomainFromURL as written: when "https://" occurs anywhere in the
      URL the first eight characters are dropped, else when "http://" occurs
      anywhere the first seven, else the URL is returned whole. */
  function DomainFromURLAsWritten(sURL: string): string
  {
    if Find(sURL, HTTPS, 0).Some? then sURL[8..]
    else if Find(sURL, HTTP, 0).Some? then sURL[7..]
    else sURL
  }

  /** The URL without its scheme: "https://" or "http://" is removed only
      when the URL starts with it. */
  function DomainFromURL(sURL: string): (r: string)
    ensures MatchAt(sURL, HTTPS, 0) ==> HTTPS + r == sURL
    ensures !MatchAt(sURL, HTTPS, 0) && MatchAt(sURL, HTTP, 0) ==> HTTP + r == sURL
    ensures !MatchAt(sURL, HTTPS, 0) && !MatchAt(sURL, HTTP, 0) ==> r == sURL
  {
    if MatchAt(sURL, HTTPS, 0) then sURL[|HTTPS|..]
    else if MatchAt(sURL, HTTP, 0) then sURL[|HTTP|..]
    else sURL
  }

  /** Stripping the scheme undoes adding it: for every host-and-path d,
      DomainFromURL gives back d from "https://" + d and from "http://" + d,
      and leaves alone a URL that does not start with a scheme. */
  lemma DomainFromURLStripsScheme(d: string)
    ensures DomainFromURL(HTTPS + d) == d
    ensures DomainFromURL(HTTP + d) == d
    ensures !MatchAt(d, HTTPS, 0) && !MatchAt(d, HTTP, 0) ==> DomainFromURL(d) == d
  {
    assert (HTTPS + d)[..|HTTPS|] == HTTPS;
    assert (HTTP + d)[..|HTTP|] == HTTP;
    assert (HTTP + d)[4] == ':';
  }

  /** A URL with a scheme at its start and no other scheme inside is
      handled alike by both versions. */
  lemma AsWrittenAgreesOnPlainURLs(d: string)
    requires forall j :: !MatchAt(d, HTTPS, j) && !MatchAt(d, HTTP, j)
    ensures DomainFromURLAsWritten(HTTPS + d) == DomainFromURL(HTTPS + d) == d
  {
    DomainFromURLStripsScheme(d);
    assert MatchAt(HTTPS + d, HTTPS, 0);
  }

  /** The version as written cuts into the host when a second scheme
      appears later in an http URL, as in a redirect parameter: for every
      host-and-path d holding "https://" at some position i, it turns
      "http://" + d into d less its first character, where DomainFromURL
      gives back d. */
  lemma AsWrittenCutsHost(d: string, i: nat)
    requires MatchAt(d, HTTPS, i)
    ensures DomainFromURLAsWritten(HTTP + d) == d[1..]
    ensures DomainFromURL(HTTP + d) == d
  {
    var s := HTTP + d;
    assert MatchAt(s, HTTPS, |HTTP| + i) by {
      assert s[|HTTP| + i..|HTTP| + i + |HTTPS|] == d[i..i + |HTTPS|];
    }
    FoundWhenMatched(s, HTTPS, |HTTP| + i);
    assert s[8..] == d[1..];
    DomainFromURLStripsScheme(d);
  }

  /** An instance: "http://a/?u=https://b" becomes "/?u=https://b" instead
      of "a/?u=https://b". */
  lemma AsWrittenCutsHostExample()
    ensures var d := "a/?u=https://b";
      DomainFromURLAsWritten(HTTP + d) == "/?u=https://b" && DomainFromURL(HTTP + d) == d
  {
    var d := "a/?u=https://b";
    assert d[5..13] == HTTPS;
    AsWrittenCutsHost(d, 5);
  }

  /** Find finds something whenever the pattern occurs. */
  lemma FoundWhenMatched(s: string, pat: string, i: nat)
    requires MatchAt(s, pat, i)
    ensures Find(s, pat, 0).Some?
  {
  }

  // ---------------------------------------------------------------------
  // ipfs_header_value

  /** The characters between a header's name and its value, and those that
      end a value. */
  const SEPARATORS: set<char> := {':', ' '}
  const TERMINATORS: set<char> := {'\r', '\n', '\t', ' '}

  /** ipfs_header_value: find the first occurrence of the name, skip colons
      and spaces after it, and return the text from there up to the next
      terminator; empty when the name is absent, nothing follows it, or no
      terminator ends the value. The search for the terminator starts one
      past the value's first character, which is therefore never checked:
      an empty value followed by "\r\n" reads as "\r". */
  function HeaderValue(fullHeader: string, headerName: string): string
  {
    match Find(fullHeader, headerName, 0)
    case None => ""
    case Some(pos) =>
      match FindFirstNotOf(fullHeader, SEPARATORS, pos + |headerName|)
      case None => ""
      case Some(begin) =>
        match FindFirstOf(fullHeader, TERMINATORS, begin + 1)
        case None => ""
        case Some(until) => fullHeader[begin..until]
    }

  /** Reading back a header that was written out: for the header
      name + sep + value + terminator + rest, where sep is colons and spaces,
      the value does not start with either and holds no terminator,
      HeaderValue gives back the value. */
  lemma {:induction false} HeaderRoundTrip(name: string, sep: string, value: string, t: char, rest: string)
    requires forall i | 0 <= i < |sep| :: sep[i] in SEPARATORS
    requires |value| > 0 && value[0] !in SEPARATORS
    requires forall i | 0 <= i < |value| :: value[i] !in TERMINATORS
    requires t in TERMINATORS
    ensures HeaderValue(name + sep + value + [t] + rest, name) == value
  {
    var s := name + sep + value + [t] + rest;
    assert MatchAt(s, name, 0) by {
      assert s[..|name|] == name;
    }
    var begin := |name| + |sep|;
    var until := begin + |value|;
    assert s[begin] == value[0];
    forall j | |name| <= j < begin
      ensures s[j] in SEPARATORS
    {
      assert s[j] == sep[j - |name|];
    }
    FirstNotOfIs(s, SEPARATORS, |name|, begin);
    assert s[until] == t;
    forall j | begin + 1 <= j < until
      ensures s[j] !in TERMINATORS
    {
      assert s[j] == value[j - begin];
    }
    FirstOfIs(s, TERMINATORS, begin + 1, until);
    assert s[begin..until] == value;
  }

  /** The first position from from on whose character is not in chars is
      the k before which every character is in chars. */
  lemma FirstNotOfIs(s: string, chars: set<char>, from: nat, k: nat)
    requires from <= k < |s| && s[k] !in chars
    requires forall j | from <= j < k :: s[j] in chars
    ensures FindFirstNotOf(s, chars, from) == Some(k)
  {
    var r := FindFirstNotOf(s, chars, from);
    assert s[k] !in chars;
  }

  /** The same for the first position whose character is in chars. */
  lemma FirstOfIs(s: string, chars: set<char>, from: nat, k: nat)
    requires from <= k < |s| && s[k] in chars
    requires forall j | from <= j < k :: s[j] !in chars
    ensures FindFirstOf(s, chars, from) == Some(k)
  {
    var r := FindFirstOf(s, chars, from);
    assert s[k] in chars;
  }

  /** A value is empty when its header is missing. */
  lemma MissingHeaderIsEmpty(fullHeader: string, headerName: string)
    requires forall j :: !MatchAt(fullHeader, headerName, j)
    ensures HeaderValue(fullHeader, headerName) == ""
  {
  }

  /** The first character of an empty value's terminator is taken for the
      value: "Etag:\r\n" reads as "\r" where HeaderValueFixed reads the
      empty value. */
  lemma EmptyValueReadsAsCarriageReturn()
    ensures HeaderValue("Etag:\r\n", "Etag") == "\r"
    ensures HeaderValueFixed("Etag:\r\n", "Etag") == ""
  {
    var s := "Etag:\r\n";
    assert MatchAt(s, "Etag", 0);
    assert FindFirstNotOf(s, SEPARATORS, 4) == Some(5) by {
      assert FindFirstNotOf(s, SEPARATORS, 5) == Some(5);
    }
    assert FindFirstOf(s, TERMINATORS, 6) == Some(6);
    assert FindFirstOf(s, TERMINATORS, 5) == Some(5);
  }

  /** ipfs_header_value with the search for the terminator starting at the
      value's first character, so that an empty value reads as empty. */
  function HeaderValueFixed(fullHeader: string, headerName: string): string
  {
    match Find(fullHeader, headerName, 0)
    case None => ""
    case Some(pos) =>
      match FindFirstNotOf(fullHeader, SEPARATORS, pos + |headerName|)
      case None => ""
      case Some(begin) =>
        match FindFirstOf(fullHeader, TERMINATORS, begin)
        case None => ""
        case Some(until) => fullHeader[begin..until]
    }

  /** HeaderValueFixed reads back every written header, the empty value
      included: for name + sep + value + terminator + rest, where sep is
      colons and spaces, the value holds no terminator and the value (or,
      when it is empty, the terminator) does not start with a separator. */
  lemma {:induction false} HeaderFixedRoundTrip(name: string, sep: string, value: string, t: char, rest: string)
    requires forall i | 0 <= i < |sep| :: sep[i] in SEPARATORS
    requires (value + [t])[0] !in SEPARATORS
    requires forall i | 0 <= i < |value| :: value[i] !in TERMINATORS
    requires t in TERMINATORS
    ensures HeaderValueFixed(name + sep + value + [t] + rest, name) == value
  {
    var s := name + sep + value + [t] + rest;
    assert MatchAt(s, name, 0) by {
      assert s[..|name|] == name;
    }
    var begin := |name| + |sep|;
    var until := begin + |value|;
    assert s[begin] == (value + [t])[0];
    forall j | |name| <= j < begin
      ensures s[j] in SEPARATORS
    {
      assert s[j] == sep[j - |name|];
    }
    FirstNotOfIs(s, SEPARATORS, |name|, begin);
    assert s[until] == t;
    forall j | begin <= j < until
      ensures s[j] !in TERMINATORS
    {
      assert s[j] == value[j - begin];
    }
    FirstOfIs(s, TERMINATORS, begin, until);
    assert s[begin..until] == value;
  }
}
