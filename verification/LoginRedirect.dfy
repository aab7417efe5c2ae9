/** The dashboard's login bounce: keeping the return path, and refusing any that leaves the origin. */
module LoginRedirect {
  import opened Prelude
  import opened Text
  import Utf8
  import Percent

  const LOGIN: string := "/login"
  const NEXT: string := "next"
  const DEFAULT_POST_LOGIN: string := "/app/keys"

  /** A path worth returning to. */
  predicate Preserved(p: string) {
    StartsWith(p, "/") && !StartsWith(p, "//") && !StartsWith(p, LOGIN) && p != "/"
  }

  function BuildLoginBounceUrl(p: string): string {
    if Preserved(p) then LOGIN + "?" + (NEXT + "=" + Percent.Quote(Percent.Component, p)) else LOGIN
  }

  predicate IsControl(c: char) {
    c as int <= 0x1f || c as int == 0x7f
  }

  predicate NoControl(s: string) {
    forall i :: 0 <= i < |s| ==> !IsControl(s[i])
  }

  /** hasControlChar. */
  method HasControlChar(s: string) returns (found: bool)
    ensures found == !NoControl(s)
  {
    for i := 0 to |s|
      invariant forall j :: 0 <= j < i ==> !IsControl(s[j])
    {
      if IsControl(s[i]) {
        return true;
      }
    }
    return false;
  }

  /** A same-origin relative path. */
  predicate SameOrigin(s: string) {
    '\\' !in s && StartsWith(s, "/") && !StartsWith(s, "//") && NoControl(s)
  }

  function SanitizeNext(raw: Option<string>): Option<string> {
    if raw.None? || raw.value == "" then None
    else if '\\' in raw.value || !StartsWith(raw.value, "/") || StartsWith(raw.value, "//") || !NoControl(raw.value)
    then None
    else raw
  }

  // ---------------------------------------------------------------------------
  // How a browser reads it
  // ---------------------------------------------------------------------------

  /** Controls and blanks at either end, which the URL parser of a browser drops. */
  function DropLeading(s: string): string {
    if s != "" && s[0] as int <= 0x20 then DropLeading(s[1..]) else s
  }

  function DropTrailing(s: string): string {
    if s != "" && s[|s| - 1] as int <= 0x20 then DropTrailing(s[..|s| - 1]) else s
  }

  /** Tabs and line breaks removed anywhere. */
  function DropBreaks(s: string): string {
    if s == "" then ""
    else if s[0] == '\t' || s[0] == '\n' || s[0] == '\r' then DropBreaks(s[1..])
    else [s[0]] + DropBreaks(s[1..])
  }

  /** Backslashes read as slashes, up to the query or the fragment. */
  function Slashed(s: string): string {
    if s == "" || s[0] == '?' || s[0] == '#' then s
    else [if s[0] == '\\' then '/' else s[0]] + Slashed(s[1..])
  }

  /** A reference as a browser goes through it, as far as that decides the origin. */
  function Seen(s: string): string {
    Slashed(DropBreaks(DropTrailing(DropLeading(s))))
  }

  /** A path on the page's own origin: rooted, and naming no other host. */
  predicate OwnPath(reference: string) {
    StartsWith(reference, "/") && !StartsWith(reference, "//")
  }

  /** What a browser reads as a path of the own origin, and nothing a rewriting could change. */
  predicate StaysHere(s: string) {
    OwnPath(Seen(s)) && NoControl(s) && '\\' !in s && !StartsWith(s, " ")
  }

  lemma {:induction false} DropBreaksNone(s: string)
    requires '\t' !in s && '\n' !in s && '\r' !in s
    ensures DropBreaks(s) == s
  {
    if s != "" {
      assert s == [s[0]] + s[1..];
      DropBreaksNone(s[1..]);
    }
  }

  lemma {:induction false} SlashedNone(s: string)
    requires '\\' !in s
    ensures Slashed(s) == s
  {
    if s != "" {
      assert s == [s[0]] + s[1..];
      SlashedNone(s[1..]);
    }
  }

  /** Only blanks are dropped at the end, so a rooted text stays rooted, and "//" stays "//". */
  lemma {:induction false} DropTrailingKeeps(s: string)
    ensures |DropTrailing(s)| <= |s| && DropTrailing(s) == s[..|DropTrailing(s)|]
    ensures OwnPath(DropTrailing(s)) <==> OwnPath(s)
  {
    if s != "" && s[|s| - 1] as int <= 0x20 {
      DropTrailingKeeps(s[..|s| - 1]);
      TrailingBlank(s[..|s| - 1], s[|s| - 1]);
      assert s == s[..|s| - 1] + [s[|s| - 1]];
    }
  }

  lemma TrailingBlank(init: string, last: char)
    requires last != '/'
    ensures OwnPath(init + [last]) <==> OwnPath(init)
  {
    var s := init + [last];
    assert |init| >= 2 ==> s[..2] == init[..2];
    assert |init| >= 1 ==> s[..1] == init[..1];
    assert |init| == 1 ==> s[..2][1] == last;
    assert |init| == 0 ==> s[..1][0] == last;
  }

  lemma NoControlHas(s: string)
    requires NoControl(s)
    ensures '\t' !in s && '\n' !in s && '\r' !in s
    ensures !StartsWith(s, " ") ==> DropLeading(s) == s
  {
    assert s != "" && s[0] == ' ' ==> s[..1] == " ";
  }

  /** Free of controls and backslashes, and not starting blank, a text is seen as written but for its end. */
  lemma SeenAsWritten(s: string)
    requires NoControl(s) && '\\' !in s && !StartsWith(s, " ")
    ensures Seen(s) == DropTrailing(s)
  {
    NoControlHas(s);
    DropTrailingKeeps(s);
    DropBreaksNone(DropTrailing(s));
    SlashedNone(DropTrailing(s));
  }

  /** The textual guard accepts exactly those. */
  lemma {:induction false} SameOriginIff(s: string)
    ensures SameOrigin(s) <==> StaysHere(s)
  {
    assert StartsWith(s, "/") ==> s[..1][0] == '/' && !StartsWith(s, " ");
    if NoControl(s) && '\\' !in s && !StartsWith(s, " ") {
      SeenAsWritten(s);
      DropTrailingKeeps(s);
    }
  }

  /** sanitizeNext: its argument if a browser reads that as a path of the own origin, with no rewriting at work. */
  method Sanitize(raw: Option<string>) returns (next: Option<string>)
    ensures next == if raw.Some? && StaysHere(raw.value) then raw else None
  {
    if raw.None? || raw.value == "" || '\\' in raw.value || !StartsWith(raw.value, "/") || StartsWith(raw.value, "//") {
      next := None;
    } else {
      var control := HasControlChar(raw.value);
      next := if control then None else raw;
    }
    if raw.Some? {
      SameOriginIff(raw.value);
    }
  }

  function LoginNextTarget(raw: Option<string>, fallback: string): string {
    SanitizeNext(raw).GetOr(fallback)
  }

  // ---------------------------------------------------------------------------
  // The query, as the login page receives it
  // ---------------------------------------------------------------------------

  function PlusToSpace(s: string): (r: string)
    ensures |r| == |s|
  {
    seq(|s|, i requires 0 <= i < |s| => if s[i] == '+' then ' ' else s[i])
  }

  /** One name or value of a form-encoded query. */
  function FormDecode(s: string): string {
    Utf8.Decode(Percent.DecodeOctets(PlusToSpace(s)))
  }

  function FirstParameter(pairs: seq<string>, name: string): Option<string> {
    if pairs == [] then None
    else
      var (key, value) := Partition(pairs[0], '=').GetOr((pairs[0], ""));
      if pairs[0] != "" && FormDecode(key) == name then Some(FormDecode(value)) else FirstParameter(pairs[1..], name)
  }

  /** The first value of a parameter in a URL's query. */
  function QueryParameter(url: string, name: string): Option<string> {
    match Partition(url, '?')
    case None => None
    case Some((_, query)) => FirstParameter(Split(query, '&'), name)
  }

  // ---------------------------------------------------------------------------
  // The guard
  // ---------------------------------------------------------------------------

  /** The guard returns its argument or nothing, and its argument exactly when that is same-origin. */
  lemma {:induction false} SanitizeIff(raw: Option<string>)
    ensures SanitizeNext(raw) == raw || SanitizeNext(raw) == None
    ensures SanitizeNext(raw).Some? <==> raw.Some? && StaysHere(raw.value)
    ensures SanitizeNext(SanitizeNext(raw)) == SanitizeNext(raw)
  {
    if raw.Some? {
      SameOriginIff(raw.value);
    }
  }

  lemma DefaultIsSameOrigin()
    ensures SameOrigin(DEFAULT_POST_LOGIN)
    ensures Preserved(DEFAULT_POST_LOGIN)
  {
    assert DEFAULT_POST_LOGIN[1] == 'a';
    assert DEFAULT_POST_LOGIN[..2][1] == 'a';
    assert DEFAULT_POST_LOGIN[..6][1] == 'a' && LOGIN[1] == 'l';
  }

  /** Whatever the query holds, the destination after login is same-origin. */
  lemma {:induction false} TargetIsSameOrigin(raw: Option<string>)
    ensures StaysHere(LoginNextTarget(raw, DEFAULT_POST_LOGIN))
  {
    SanitizeIff(raw);
    DefaultIsSameOrigin();
    SameOriginIff(LoginNextTarget(raw, DEFAULT_POST_LOGIN));
  }

  // ---------------------------------------------------------------------------
  // The round trip
  // ---------------------------------------------------------------------------

  /** An encoded path holds no character that the URL or the query could take for its own. */
  lemma EncodedIsInert(p: string)
    ensures forall i :: 0 <= i < |Percent.Quote(Percent.Component, p)| ==>
      Percent.Quote(Percent.Component, p)[i] !in {'?', '&', '=', '+', '#'}
  {
    Percent.EncodedChars(Percent.Component, Utf8.Encode(p));
  }

  lemma FormDecodeEncoded(p: string)
    ensures FormDecode(Percent.Quote(Percent.Component, p)) == p
  {
    EncodedIsInert(p);
    var q := Percent.Quote(Percent.Component, p);
    assert PlusToSpace(q) == q;
    Percent.DecodeEncodeOctets(Percent.Component, Utf8.Encode(p));
    Utf8.DecodeEncode(p);
  }

  /** Text without escapes or '+' is its own decoding. */
  lemma {:induction false} PlainOctets(s: string)
    requires '%' !in s
    ensures Percent.DecodeOctets(s) == Utf8.Encode(s)
  {
    if s != "" {
      assert s == [s[0]] + s[1..];
      PlainOctets(s[1..]);
    }
  }

  lemma PlainDecodes(s: string)
    requires '%' !in s && '+' !in s
    ensures FormDecode(s) == s
  {
    assert PlusToSpace(s) == s;
    PlainOctets(s);
    Utf8.DecodeEncode(s);
  }

  /** The parameter's name needs no encoding. */
  lemma NextIsPlain()
    ensures FormDecode(NEXT) == NEXT
    ensures '=' !in NEXT && '&' !in NEXT && '?' !in NEXT && '?' !in LOGIN
  {
    NextCharacters();
    PlainDecodes(NEXT);
  }

  lemma NextCharacters()
    ensures '%' !in NEXT && '+' !in NEXT && '=' !in NEXT && '&' !in NEXT && '?' !in NEXT && '?' !in LOGIN
  {
  }

  lemma SplitNone(s: string, c: char)
    requires c !in s
    ensures Split(s, c) == [s]
  {
  }

  /** The login page reads back the path that the bounce kept. */
  lemma {:induction false} QueryReadsBack(p: string)
    requires Preserved(p)
    ensures QueryParameter(BuildLoginBounceUrl(p), NEXT) == Some(p)
  {
    var q := Percent.Quote(Percent.Component, p);
    EncodedIsInert(p);
    NextIsPlain();
    FormDecodeEncoded(p);
    ReadsPair(q, p);
  }

  lemma ReadsPair(q: string, p: string)
    requires '?' !in q && '&' !in q && '=' !in q && FormDecode(q) == p && FormDecode(NEXT) == NEXT
    requires '=' !in NEXT && '&' !in NEXT && '?' !in LOGIN
    ensures QueryParameter(LOGIN + "?" + (NEXT + "=" + q), NEXT) == Some(p)
  {
    var query := NEXT + "=" + q;
    PartitionIs(LOGIN, '?', query);
    PartitionIs(NEXT, '=', q);
    assert '&' !in query;
    SplitNone(query, '&');
    assert query != "";
  }

  /** Without a query there is no parameter. */
  lemma BareLogin(p: string)
    requires !Preserved(p)
    ensures QueryParameter(BuildLoginBounceUrl(p), NEXT) == None
  {
    NextIsPlain();
  }

  /** Which paths are worth keeping, and what the bounce makes of any path. */
  lemma {:induction false} BounceIs(p: string)
    ensures BuildLoginBounceUrl(p) ==
      if p == "" || p[0] != '/' || p == "/" || StartsWith(p, "//") || StartsWith(p, "/login") then "/login"
      else "/login" + "?" + ("next" + "=" + Percent.Quote(Percent.Component, p))
    ensures Preserved(p) <==>
      p != "" && p[0] == '/' && p != "/" && !StartsWith(p, "//") && !StartsWith(p, "/login")
  {
    assert p != "" ==> p[..1] == [p[0]];
  }

  /** Controls are everything below the blank, and DEL. */
  lemma ControlIff(s: string)
    ensures NoControl(s) <==> forall i :: 0 <= i < |s| ==> ' ' <= s[i] && s[i] != '\U{007F}'
  {
  }

  /**
   * The return path survives bounce and login exactly when it is rooted, not "/" itself, not
   * scheme-relative, not under /login, and free of backslashes and control characters.
   */
  lemma {:induction false} RoundTripIff(p: string)
    ensures LoginNextTarget(QueryParameter(BuildLoginBounceUrl(p), "next"), "/app/keys") == p <==>
      && p != "" && p[0] == '/' && p != "/" && !StartsWith(p, "//") && !StartsWith(p, "/login")
      && '\\' !in p && NoControl(p)
  {
    BounceIs(p);
    DefaultIsSameOrigin();
    if Preserved(p) {
      QueryReadsBack(p);
      SanitizeIff(Some(p));
    } else {
      BareLogin(p);
      SanitizeIff(None);
    }
  }

  // ---------------------------------------------------------------------------
  // Queries other than the bounce's own
  // ---------------------------------------------------------------------------

  /** The first pair of a name decides, whatever follows it; pairs of other names are passed over. */
  lemma {:induction false} PairIs(key: string, value: string, pairs: seq<string>, name: string)
    requires '=' !in key
    ensures FirstParameter([key + ['='] + value] + pairs, name)
      == if FormDecode(key) == name then Some(FormDecode(value)) else FirstParameter(pairs, name)
    ensures key != "" ==>
      FirstParameter([key] + pairs, name)
        == if FormDecode(key) == name then Some(FormDecode("")) else FirstParameter(pairs, name)
    ensures FirstParameter([""] + pairs, name) == FirstParameter(pairs, name)
  {
    PartitionIs(key, '=', value);
    assert ([key + ['='] + value] + pairs)[1..] == pairs && ([key] + pairs)[1..] == pairs;
    assert ([""] + pairs)[1..] == pairs;
  }

  lemma PlusAround(a: string, mid: string, b: string)
    requires '+' !in mid
    ensures PlusToSpace(a + (mid + b)) == PlusToSpace(a) + (mid + PlusToSpace(b))
    ensures PlusToSpace(a + ("+" + b)) == PlusToSpace(a) + (" " + PlusToSpace(b))
  {
  }

  lemma BlankOctet(y: string)
    ensures Percent.DecodeOctets(" " + y) == [32] + Percent.DecodeOctets(y)
    ensures Percent.DecodeOctets("%20" + y) == [32] + Percent.DecodeOctets(y)
  {
    assert (" " + y)[1..] == y && ("%20" + y)[3..] == y;
    assert Percent.Token(" " + y) == ([32], 1);
    assert Percent.Token("%20" + y) == ([32], 3);
  }

  /** A '+' stands for a blank, as "%20" does. */
  lemma {:induction false} PlusIsBlank(a: string, b: string)
    ensures FormDecode(a + ("+" + b)) == FormDecode(a + ("%20" + b))
  {
    var x, y := PlusToSpace(a), PlusToSpace(b);
    PlusAround(a, "%20", b);
    BlankOctet(y);
    Percent.DecodeAround(x, " " + y);
    Percent.DecodeAround(x, "%20" + y);
  }

  // ---------------------------------------------------------------------------
  // The browser's reading, spelled out
  // ---------------------------------------------------------------------------

  predicate Blanks(s: string) {
    forall i :: 0 <= i < |s| ==> s[i] <= ' '
  }

  /** Blanks and controls go at both ends, and nothing else does. */
  lemma {:induction false} EndsDropped(a: string, s: string, b: string)
    requires Blanks(a) && Blanks(b) && s != "" && ' ' < s[0] && ' ' < s[|s| - 1]
    ensures DropTrailing(DropLeading(a + s + b)) == s
  {
    LeadingDropped(a, s + b);
    assert a + s + b == a + (s + b);
    TrailingDropped(s, b);
  }

  lemma {:induction false} LeadingDropped(a: string, s: string)
    requires Blanks(a) && s != "" && ' ' < s[0]
    ensures DropLeading(a + s) == s
  {
    if a == "" {
      assert a + s == s;
    } else {
      assert (a + s)[1..] == a[1..] + s;
      LeadingDropped(a[1..], s);
    }
  }

  lemma {:induction false} TrailingDropped(s: string, b: string)
    requires Blanks(b) && s != "" && ' ' < s[|s| - 1]
    ensures DropTrailing(s + b) == s
  {
    if b == "" {
      assert s + b == s;
    } else {
      assert (s + b)[..|s + b| - 1] == s + b[..|b| - 1];
      TrailingDropped(s, b[..|b| - 1]);
    }
  }

  /** Tabs and line breaks go everywhere. */
  lemma {:induction false} BreaksDropped(s: string)
    ensures DropBreaks(s) == Filter(s, c => c != '\t' && c != '\n' && c != '\r')
  {
    if s != "" {
      BreaksDropped(s[1..]);
    }
  }

  /** A backslash reads as a slash iff no '?' and no '#' stands in front of it. */
  lemma {:induction false} SlashedAt(s: string, i: nat)
    requires i < |s|
    ensures |Slashed(s)| == |s|
    ensures Slashed(s)[i] == if s[i] == '\\' && '?' !in s[..i] && '#' !in s[..i] then '/' else s[i]
  {
    SlashedLength(s);
    if i > 0 {
      assert s[..i] == [s[0]] + s[1..][..i - 1];
      if s[0] != '?' && s[0] != '#' {
        SlashedAt(s[1..], i - 1);
      }
    }
  }

  lemma {:induction false} SlashedLength(s: string)
    ensures |Slashed(s)| == |s|
  {
    if s != "" && s[0] != '?' && s[0] != '#' {
      SlashedLength(s[1..]);
    }
  }
}
