/**
 * ZanCacheControl: the policy a request asks for, parsed from directives of the form
 * directive[=parameter], separated by ',' or ';', in the style of the Cache-Control grammar
 * of section 5.2 of RFC 7234.
 */
module CacheControl {
  import opened Wrappers
  import opened JavaText
  import opened Http
  import opened HeaderParser

  /** CACHE_HEADER: the request header that carries the directives. */
  const CacheHeader: string := "ZanCache"

  datatype Policy = Policy(
    noCache: bool,
    maxAgeSeconds: int,
    onlyIfCached: bool,
    cacheBefore: bool,
    refreshCache: bool,
    headerValue: Option<string>)
  {
    predicate IsWriteCacheOpen() {
      cacheBefore || refreshCache
    }

    predicate IsReadCacheOpen() {
      cacheBefore || onlyIfCached
    }

    /**
     * The interceptor calls isCacheOpen(), which ZanCacheControl does not define; this model
     * takes it to mean that the cache is open for reading or for writing.
     */
    predicate IsCacheOpen() {
      IsReadCacheOpen() || IsWriteCacheOpen()
    }
  }

  /** The policy imposed when there is no network: read-only. */
  function CreateOnlyIfCache(): (p: Policy)
    ensures p.onlyIfCached && !p.noCache && !p.cacheBefore && !p.refreshCache
    ensures p.IsReadCacheOpen() && !p.IsWriteCacheOpen()
  {
    Policy(false, 0, true, false, false, Some("only-if-cached"))
  }

  function CreateNoCache(): (p: Policy)
    ensures p.noCache && !p.onlyIfCached
    ensures !p.IsReadCacheOpen() && !p.IsWriteCacheOpen()
  {
    Policy(true, 0, false, false, false, Some("no-cache"))
  }

  /** Despite its name, this factory sets noCache and leaves cacheBefore false: it opens neither side. */
  function CreateCacheBefore(): (p: Policy)
    ensures p.noCache && !p.cacheBefore
    ensures !p.IsReadCacheOpen() && !p.IsWriteCacheOpen()
  {
    Policy(true, 0, false, false, false, Some("cache-before"))
  }

  /** Write-only: always fetch, always store. */
  function CreateRefreshCache(): (p: Policy)
    ensures p.refreshCache && !p.noCache
    ensures !p.IsReadCacheOpen() && p.IsWriteCacheOpen()
  {
    Policy(false, 0, false, false, true, Some("refresh_cache"))
  }

  // The directive names: the first three ignore case, the two custom ones do not.

  predicate IsNoCache(name: string) {
    EqualsIgnoreCase("no-cache", name)
  }

  predicate IsMaxAge(name: string) {
    EqualsIgnoreCase("max-age", name)
  }

  predicate IsOnlyIfCached(name: string) {
    EqualsIgnoreCase("only-if-cached", name)
  }

  predicate IsCacheBefore(name: string) {
    "cache-before" == name
  }

  predicate IsRefreshCache(name: string) {
    "refresh_cache" == name
  }

  predicate IsRecognised(name: string) {
    IsNoCache(name) || IsMaxAge(name) || IsOnlyIfCached(name) || IsCacheBefore(name) || IsRefreshCache(name)
  }

  datatype Directive = Directive(name: string, parameter: Option<string>)

  const DirectiveEnd: set<char> := {'=', ',', ';'}
  const ParameterEnd: set<char> := {',', ';'}

  /**
   * One turn of the tokenizer loop: the directive that starts at pos, and the position the
   * cursor has reached after it (at most one past the end of v).
   */
  function NextDirective(v: string, pos: nat): (r: (Directive, nat))
    requires pos < |v|
    ensures pos < r.1 <= |v| + 1
  {
    var end := SkipUntil(v, pos, DirectiveEnd);
    var after := AfterName(v, end);
    (Directive(Trim(v[pos..end]), after.0), after.1)
  }

  /**
   * What follows a directive's name, which ends at end: no parameter and the separator
   * consumed, or the parameter after '='; and where the cursor stops.
   */
  function AfterName(v: string, end: nat): (r: (Option<string>, nat))
    requires end <= |v|
    ensures end < r.1 <= |v| + 1
  {
    if end == |v| || v[end] == ',' || v[end] == ';' then
      (None, end + 1)
    else
      var parameter := NextParameter(v, end + 1);
      (Some(parameter.0), parameter.1)
  }

  /**
   * The parameter after '=' at pos: a quoted string taken verbatim, or else the trimmed text up
   * to the next ',' or ';'; and where the cursor stops.
   */
  function NextParameter(v: string, pos: nat): (r: (string, nat))
    requires pos <= |v|
    ensures pos <= r.1 <= |v| + 1
  {
    var start := SkipWhitespace(v, pos);
    if start < |v| && v[start] == '"' then
      var close := SkipUntil(v, start + 1, {'"'});
      (v[start + 1..close], close + 1)
    else
      var stop := SkipUntil(v, start, ParameterEnd);
      (Trim(v[start..stop]), stop)
  }

  /** Every directive the tokenizer finds in v from pos on, in order. */
  function Directives(v: string, pos: nat): seq<Directive>
    requires pos <= |v| + 1
    decreases |v| + 1 - pos
  {
    if pos >= |v| then [] else [NextDirective(v, pos).0] + Directives(v, NextDirective(v, pos).1)
  }

  /** The effect of one directive on the policy being built. */
  function Apply(p: Policy, d: Directive): Policy {
    if IsNoCache(d.name) then p.(noCache := true)
    else if IsMaxAge(d.name) then p.(maxAgeSeconds := ParseSeconds(d.parameter, -1))
    else if IsOnlyIfCached(d.name) then p.(onlyIfCached := true)
    else if IsCacheBefore(d.name) then p.(cacheBefore := true)
    else if IsRefreshCache(d.name) then p.(refreshCache := true)
    else p
  }

  function ApplyAll(p: Policy, ds: seq<Directive>): Policy
    decreases |ds|
  {
    if ds == [] then p else ApplyAll(Apply(p, ds[0]), ds[1..])
  }

  /** The parser's state between headers. */
  datatype Scan = Scan(policy: Policy, canUseHeaderValue: bool)

  /** The work done for one header: remember a ZanCache value, then scan the value for directives. */
  function ScanHeader(s: Scan, h: Header): Scan {
    var s' :=
      if !EqualsIgnoreCase(h.name, CacheHeader) then s
      else if s.policy.headerValue.Some? then s.(canUseHeaderValue := false)
      else s.(policy := s.policy.(headerValue := Some(h.value)));
    s'.(policy := ApplyAll(s'.policy, Directives(h.value, 0)))
  }

  function ScanAll(s: Scan, headers: seq<Header>): Scan
    decreases |headers|
  {
    if headers == [] then s else ScanAll(ScanHeader(s, headers[0]), headers[1..])
  }

  const Default: Policy := Policy(false, -1, false, false, false, None)

  function Finish(s: Scan): Policy {
    if s.canUseHeaderValue then s.policy else s.policy.(headerValue := None)
  }

  /** The policy parse(headers) returns. */
  function Parsed(headers: seq<Header>): Policy {
    Finish(ScanAll(Scan(Default, true), headers))
  }

  /**
   * parse(headers): a cursor walks the value of EVERY header (whatever its name), splitting
   * it into directives and folding the recognised ones into the policy. The source keeps the
   * policy's fields in local variables; here they are one Policy value.
   */
  method Parse(headers: seq<Header>) returns (r: Policy)
    ensures r == Parsed(headers)
  {
    var policy := Default;
    var canUseHeaderValue := true;

    for i := 0 to |headers|
      invariant Finish(ScanAll(Scan(policy, canUseHeaderValue), headers[i..])) == Parsed(headers)
    {
      ScanAllStep(Scan(policy, canUseHeaderValue), headers, i);
      var name := headers[i].name;
      var value := headers[i].value;

      if EqualsIgnoreCase(name, CacheHeader) {
        if policy.headerValue.Some? {
          // Several ZanCache headers: the raw value cannot be used.
          canUseHeaderValue := false;
        } else {
          policy := policy.(headerValue := Some(value));
        }
      }
      policy := ScanValue(value, policy);
    }
    if !canUseHeaderValue {
      policy := policy.(headerValue := None);
    }
    r := policy;
  }

  /** The tokenizer loop of parse over one header value. */
  method ScanValue(value: string, start: Policy) returns (p: Policy)
    ensures p == ApplyAll(start, Directives(value, 0))
  {
    p := start;
    var pos := 0;
    while pos < |value|
      invariant pos <= |value| + 1
      invariant ApplyAll(p, Directives(value, pos)) == ApplyAll(start, Directives(value, 0))
      decreases |value| + 1 - pos
    {
      ghost var here := pos;
      var directive, parameter;
      directive, parameter, pos := ReadDirective(value, pos);
      DirectivesStep(value, here);
      ApplyAllStep(p, Directive(directive, parameter), Directives(value, pos));

      if IsNoCache(directive) {
        p := p.(noCache := true);
      } else if IsMaxAge(directive) {
        p := p.(maxAgeSeconds := ParseSeconds(parameter, -1));
      } else if IsOnlyIfCached(directive) {
        p := p.(onlyIfCached := true);
      } else if IsCacheBefore(directive) {
        p := p.(cacheBefore := true);
      } else if IsRefreshCache(directive) {
        p := p.(refreshCache := true);
      }
    }
  }

  lemma DirectivesStep(v: string, pos: nat)
    requires pos < |v|
    ensures Directives(v, pos) == [NextDirective(v, pos).0] + Directives(v, NextDirective(v, pos).1)
  {
  }

  lemma ApplyAllStep(p: Policy, d: Directive, ds: seq<Directive>)
    ensures ApplyAll(p, [d] + ds) == ApplyAll(Apply(p, d), ds)
  {
    assert ([d] + ds)[1..] == ds;
  }

  lemma ScanAllStep(s: Scan, headers: seq<Header>, i: nat)
    requires i < |headers|
    ensures ScanAll(s, headers[i..]) == ScanAll(ScanHeader(s, headers[i]), headers[i + 1..])
  {
    assert headers[i..][0] == headers[i] && headers[i..][1..] == headers[i + 1..];
  }

  /** The body of the tokenizer loop in parse: one directive and its parameter, and the new cursor. */
  method ReadDirective(value: string, pos0: nat) returns (directive: string, parameter: Option<string>, pos: nat)
    requires pos0 < |value|
    ensures (Directive(directive, parameter), pos) == NextDirective(value, pos0)
  {
    pos := SkipUntil(value, pos0, DirectiveEnd);
    directive := Trim(value[pos0..pos]);
    parameter, pos := ReadAfterName(value, pos);
  }

  method ReadAfterName(value: string, pos0: nat) returns (parameter: Option<string>, pos: nat)
    requires pos0 <= |value|
    ensures (parameter, pos) == AfterName(value, pos0)
  {
    pos := pos0;
    if pos == |value| || value[pos] == ',' || value[pos] == ';' {
      pos := pos + 1; // consume ',' or ';' (or step past the end)
      parameter := None;
    } else {
      pos := pos + 1; // consume '='
      var text;
      text, pos := ReadParameter(value, pos);
      parameter := Some(text);
    }
  }

  method ReadParameter(value: string, pos0: nat) returns (parameter: string, pos: nat)
    requires pos0 <= |value|
    ensures (parameter, pos) == NextParameter(value, pos0)
  {
    pos := SkipWhitespace(value, pos0);
    if pos < |value| && value[pos] == '"' {
      pos := pos + 1; // consume the opening quote
      var parameterStart := pos;
      pos := SkipUntil(value, pos, {'"'});
      parameter := value[parameterStart..pos];
      pos := pos + 1; // consume the closing quote (or step past the end)
    } else {
      var parameterStart := pos;
      pos := SkipUntil(value, pos, ParameterEnd);
      parameter := Trim(value[parameterStart..pos]);
    }
  }

  // ---------------------------------------------------------------------------------------
  // What parse computes, stated without the cursor.

  /** The directives of every header's value, header by header, in order. */
  function AllDirectives(headers: seq<Header>): seq<Directive>
    decreases |headers|
  {
    if headers == [] then [] else Directives(headers[0].value, 0) + AllDirectives(headers[1..])
  }

  /** The last max-age directive, if there is one. */
  function LastMaxAge(ds: seq<Directive>): (r: Option<Directive>)
    ensures r.Some? ==> r.value in ds && IsMaxAge(r.value.name)
    ensures r.None? ==> forall i :: 0 <= i < |ds| ==> !IsMaxAge(ds[i].name)
    decreases |ds|
  {
    if ds == [] then None
    else
      var later := LastMaxAge(ds[1..]);
      if later.Some? then later
      else if IsMaxAge(ds[0].name) then Some(ds[0])
      else None
  }

  /** Some directive of ds has a name recognised by isName. */
  predicate Names(ds: seq<Directive>, isName: string -> bool) {
    exists i :: 0 <= i < |ds| && isName(ds[i].name)
  }

  /** The values of the ZanCache headers, whatever the case of their names. */
  function CacheHeaderValues(headers: seq<Header>): seq<string>
    decreases |headers|
  {
    if headers == [] then []
    else (if EqualsIgnoreCase(headers[0].name, CacheHeader) then [headers[0].value] else [])
         + CacheHeaderValues(headers[1..])
  }

  /** The five names have different lengths, so a name matches at most one of them. */
  lemma NamesExclusive(n: string)
    ensures IsNoCache(n) ==> !IsMaxAge(n) && !IsOnlyIfCached(n) && !IsCacheBefore(n) && !IsRefreshCache(n)
    ensures IsMaxAge(n) ==> !IsOnlyIfCached(n) && !IsCacheBefore(n) && !IsRefreshCache(n)
    ensures IsOnlyIfCached(n) ==> !IsCacheBefore(n) && !IsRefreshCache(n)
    ensures IsCacheBefore(n) ==> !IsRefreshCache(n)
  {
    assert |"no-cache"| == 8 && |"max-age"| == 7 && |"only-if-cached"| == 14;
    assert |"cache-before"| == 12 && |"refresh_cache"| == 13;
  }

  lemma {:induction false} ApplyAllAppend(p: Policy, a: seq<Directive>, b: seq<Directive>)
    ensures ApplyAll(p, a + b) == ApplyAll(ApplyAll(p, a), b)
    decreases |a|
  {
    if a == [] {
      assert a + b == b;
    } else {
      assert (a + b)[0] == a[0];
      assert (a + b)[1..] == a[1..] + b;
      ApplyAllAppend(Apply(p, a[0]), a[1..], b);
    }
  }

  /** One directive sets the flag it names, or max-age, and nothing else. */
  lemma ApplyEffect(p: Policy, d: Directive)
    ensures Apply(p, d).noCache == (p.noCache || IsNoCache(d.name))
    ensures Apply(p, d).onlyIfCached == (p.onlyIfCached || IsOnlyIfCached(d.name))
    ensures Apply(p, d).cacheBefore == (p.cacheBefore || IsCacheBefore(d.name))
    ensures Apply(p, d).refreshCache == (p.refreshCache || IsRefreshCache(d.name))
    ensures Apply(p, d).maxAgeSeconds == if IsMaxAge(d.name) then ParseSeconds(d.parameter, -1) else p.maxAgeSeconds
    ensures Apply(p, d).headerValue == p.headerValue
  {
    NamesExclusive(d.name);
  }

  lemma NamesFirst(ds: seq<Directive>, isName: string -> bool)
    requires ds != []
    ensures Names(ds, isName) <==> isName(ds[0].name) || Names(ds[1..], isName)
  {
    if Names(ds, isName) && !isName(ds[0].name) {
      var i :| 0 <= i < |ds| && isName(ds[i].name);
      assert ds[1..][i - 1] == ds[i];
    }
    if Names(ds[1..], isName) {
      var i :| 0 <= i < |ds[1..]| && isName(ds[1..][i].name);
      assert ds[i + 1] == ds[1..][i];
    }
  }

  /**
   * Each flag ends up set exactly when it was set before or some directive names it; max-age
   * is decided by the LAST max-age directive; the raw header value is never touched.
   */
  lemma {:induction false} ApplyAllFields(p: Policy, ds: seq<Directive>)
    ensures ApplyAll(p, ds).noCache == (p.noCache || Names(ds, IsNoCache))
    ensures ApplyAll(p, ds).onlyIfCached == (p.onlyIfCached || Names(ds, IsOnlyIfCached))
    ensures ApplyAll(p, ds).cacheBefore == (p.cacheBefore || Names(ds, IsCacheBefore))
    ensures ApplyAll(p, ds).refreshCache == (p.refreshCache || Names(ds, IsRefreshCache))
    ensures ApplyAll(p, ds).maxAgeSeconds
         == if LastMaxAge(ds).None? then p.maxAgeSeconds else ParseSeconds(LastMaxAge(ds).value.parameter, -1)
    ensures ApplyAll(p, ds).headerValue == p.headerValue
    decreases |ds|
  {
    if ds != [] {
      ApplyEffect(p, ds[0]);
      ApplyAllFields(Apply(p, ds[0]), ds[1..]);
      NamesFirst(ds, IsNoCache);
      NamesFirst(ds, IsOnlyIfCached);
      NamesFirst(ds, IsCacheBefore);
      NamesFirst(ds, IsRefreshCache);
    }
  }

  /** Replacing the raw header value commutes with applying directives. */
  lemma {:induction false} ApplyAllKeepsHeaderValue(p: Policy, ds: seq<Directive>, v: Option<string>)
    ensures ApplyAll(p.(headerValue := v), ds) == ApplyAll(p, ds).(headerValue := v)
    decreases |ds|
  {
    if ds != [] {
      ApplyKeepsHeaderValue(p, ds[0], v);
      ApplyAllKeepsHeaderValue(Apply(p, ds[0]), ds[1..], v);
    }
  }

  lemma ApplyKeepsHeaderValue(p: Policy, d: Directive, v: Option<string>)
    ensures Apply(p.(headerValue := v), d) == Apply(p, d).(headerValue := v)
  {
    if IsNoCache(d.name) {
    } else if IsMaxAge(d.name) {
    } else if IsOnlyIfCached(d.name) {
    } else if IsCacheBefore(d.name) {
    } else if IsRefreshCache(d.name) {
    }
  }

  lemma {:induction false} ScanAllDirectives(s: Scan, headers: seq<Header>)
    ensures ScanAll(s, headers).policy
         == ApplyAll(s.policy, AllDirectives(headers)).(headerValue := ScanAll(s, headers).policy.headerValue)
    decreases |headers|
  {
    if headers == [] {
    } else {
      var h, rest := headers[0], headers[1..];
      var ds := Directives(h.value, 0);
      var w :=
        if !EqualsIgnoreCase(h.name, CacheHeader) || s.policy.headerValue.Some? then s.policy.headerValue
        else Some(h.value);
      var s1 := ScanHeader(s, h);
      assert s1.policy == ApplyAll(s.policy.(headerValue := w), ds);
      ApplyAllKeepsHeaderValue(s.policy, ds, w);
      ApplyAllKeepsHeaderValue(ApplyAll(s.policy, ds), AllDirectives(rest), w);
      ApplyAllAppend(s.policy, ds, AllDirectives(rest));
      ScanAllDirectives(s1, rest);
    }
  }

  /**
   * The flags and max-age that parse returns are those obtained by applying, from the default
   * policy, the directives of every header in order.
   */
  lemma ParsedIsAllDirectivesApplied(headers: seq<Header>)
    ensures Parsed(headers).(headerValue := None) == ApplyAll(Default, AllDirectives(headers))
  {
    ScanAllDirectives(Scan(Default, true), headers);
    ApplyAllFields(Default, AllDirectives(headers));
  }

  /**
   * parse in full: each flag is set iff some directive of some header names it, max-age is the
   * last max-age directive's seconds (-1 when there is none).
   */
  lemma ParsedFields(headers: seq<Header>)
    ensures var ds := AllDirectives(headers);
      && Parsed(headers).noCache == Names(ds, IsNoCache)
      && Parsed(headers).onlyIfCached == Names(ds, IsOnlyIfCached)
      && Parsed(headers).cacheBefore == Names(ds, IsCacheBefore)
      && Parsed(headers).refreshCache == Names(ds, IsRefreshCache)
      && Parsed(headers).maxAgeSeconds
         == if LastMaxAge(ds).None? then -1 else ParseSeconds(LastMaxAge(ds).value.parameter, -1)
  {
    ParsedIsAllDirectivesApplied(headers);
    ApplyAllFields(Default, AllDirectives(headers));
  }

  /** A header contributes its directives whatever its name: the scan covers every header. */
  lemma {:induction false} AllDirectivesCoverEveryHeader(headers: seq<Header>, d: Directive)
    ensures d in AllDirectives(headers) <==> exists j :: 0 <= j < |headers| && d in Directives(headers[j].value, 0)
    decreases |headers|
  {
    if headers != [] {
      var first, rest := Directives(headers[0].value, 0), headers[1..];
      assert AllDirectives(headers) == first + AllDirectives(rest);
      AllDirectivesCoverEveryHeader(rest, d);
      if d in AllDirectives(headers) && d !in first {
        var j :| 0 <= j < |rest| && d in Directives(rest[j].value, 0);
        assert headers[j + 1] == rest[j];
      }
      if exists j :: 0 <= j < |headers| && d in Directives(headers[j].value, 0) {
        var j :| 0 <= j < |headers| && d in Directives(headers[j].value, 0);
        if j > 0 {
          assert rest[j - 1] == headers[j];
        }
      }
    }
  }

  /** Without any recognised directive, the default policy comes back (max-age -1, all flags off). */
  lemma NoRecognisedDirective(headers: seq<Header>)
    requires forall d :: d in AllDirectives(headers) ==> !IsRecognised(d.name)
    ensures Parsed(headers).(headerValue := None) == Default
    ensures !Parsed(headers).IsCacheOpen()
  {
    ParsedFields(headers);
  }

  lemma {:induction false} ScanAllHeaderValue(s: Scan, headers: seq<Header>)
    ensures var values := CacheHeaderValues(headers);
      ScanAll(s, headers).policy.headerValue
      == if s.policy.headerValue.Some? || values == [] then s.policy.headerValue else Some(values[0])
    ensures var values := CacheHeaderValues(headers);
      ScanAll(s, headers).canUseHeaderValue
      == (s.canUseHeaderValue && (values == [] || (s.policy.headerValue.None? && |values| == 1)))
    decreases |headers|
  {
    if headers != [] {
      var s1 := ScanHeader(s, headers[0]);
      ApplyAllFields(s1.policy, []);
      ApplyAllFields(if !EqualsIgnoreCase(headers[0].name, CacheHeader) then s.policy
                     else if s.policy.headerValue.Some? then s.policy
                     else s.policy.(headerValue := Some(headers[0].value)),
                     Directives(headers[0].value, 0));
      ScanAllHeaderValue(s1, headers[1..]);
    }
  }

  /**
   * The raw ZanCache value is kept only when exactly one ZanCache header is present; with none,
   * or with several, it is absent.
   */
  lemma ParsedHeaderValue(headers: seq<Header>)
    ensures var values := CacheHeaderValues(headers);
      Parsed(headers).headerValue == if |values| == 1 then Some(values[0]) else None
  {
    ScanAllHeaderValue(Scan(Default, true), headers);
  }

  // ---------------------------------------------------------------------------------------
  // The tokenizer on the three shapes of directive.

  /** A bare directive, ended by ',' or ';' or by the end of the value. */
  lemma BareDirective(v: string, pos: nat, end: nat)
    requires pos < |v| && pos <= end <= |v|
    requires forall i :: pos <= i < end ==> v[i] !in DirectiveEnd
    requires end == |v| || v[end] in ParameterEnd
    ensures NextDirective(v, pos) == (Directive(Trim(v[pos..end]), None), end + 1)
  {
    assert SkipUntil(v, pos, DirectiveEnd) == end;
    assert AfterName(v, end) == (None, end + 1);
  }

  /**
   * name="text": the quoted text is taken verbatim, separators and blanks included, and the
   * cursor stops just past the closing quote.
   */
  lemma QuotedParameter(v: string, pos: nat, eq: nat, open: nat, close: nat)
    requires pos <= eq < open < close < |v|
    requires forall i :: pos <= i < eq ==> v[i] !in DirectiveEnd
    requires v[eq] == '=' && v[open] == '"' && v[close] == '"'
    requires forall i :: eq < i < open ==> IsSpaceOrTab(v[i])
    requires forall i :: open < i < close ==> v[i] != '"'
    ensures NextDirective(v, pos) == (Directive(Trim(v[pos..eq]), Some(v[open + 1..close])), close + 1)
  {
    QuotedParameterText(v, eq + 1, open, close);
    DirectiveWithParameter(v, pos, eq);
  }

  /**
   * name=text, unquoted: the text after the blanks up to the next ',' or ';' (or the end),
   * trimmed; the cursor stops ON the separator.
   */
  lemma PlainParameter(v: string, pos: nat, eq: nat, start: nat, end: nat)
    requires pos <= eq < start <= end <= |v|
    requires forall i :: pos <= i < eq ==> v[i] !in DirectiveEnd
    requires v[eq] == '='
    requires forall i :: eq < i < start ==> IsSpaceOrTab(v[i])
    requires start == |v| || (v[start] != '"' && !IsSpaceOrTab(v[start]))
    requires forall i :: start <= i < end ==> v[i] !in ParameterEnd
    requires end == |v| || v[end] in ParameterEnd
    ensures NextDirective(v, pos) == (Directive(Trim(v[pos..eq]), Some(Trim(v[start..end]))), end)
  {
    PlainParameterText(v, eq + 1, start, end);
    DirectiveWithParameter(v, pos, eq);
  }

  lemma PlainParameterText(v: string, from: nat, start: nat, end: nat)
    requires from <= start <= end <= |v|
    requires forall i :: from <= i < start ==> IsSpaceOrTab(v[i])
    requires start == |v| || (v[start] != '"' && !IsSpaceOrTab(v[start]))
    requires forall i :: start <= i < end ==> v[i] !in ParameterEnd
    requires end == |v| || v[end] in ParameterEnd
    ensures NextParameter(v, from) == (Trim(v[start..end]), end)
  {
    assert SkipWhitespace(v, from) == start;
    assert SkipUntil(v, start, ParameterEnd) == end;
  }

  lemma DirectiveWithParameter(v: string, pos: nat, eq: nat)
    requires pos <= eq < |v|
    requires forall i :: pos <= i < eq ==> v[i] !in DirectiveEnd
    requires v[eq] == '='
    ensures NextDirective(v, pos)
         == (Directive(Trim(v[pos..eq]), Some(NextParameter(v, eq + 1).0)), NextParameter(v, eq + 1).1)
  {
    assert SkipUntil(v, pos, DirectiveEnd) == eq;
    assert AfterName(v, eq) == (Some(NextParameter(v, eq + 1).0), NextParameter(v, eq + 1).1);
  }

  lemma QuotedParameterText(v: string, from: nat, open: nat, close: nat)
    requires from <= open < close < |v|
    requires forall i :: from <= i < open ==> IsSpaceOrTab(v[i])
    requires v[open] == '"' && v[close] == '"'
    requires forall i :: open < i < close ==> v[i] != '"'
    ensures NextParameter(v, from) == (v[open + 1..close], close + 1)
  {
    assert SkipWhitespace(v, from) == open;
    assert SkipUntil(v, open + 1, {'"'}) == close;
  }

  // ---------------------------------------------------------------------------------------
  // Two headers worked through.

  lemma AllDirectivesOfOne(h: Header)
    ensures AllDirectives([h]) == Directives(h.value, 0)
  {
    assert [h][1..] == [];
  }

  lemma AllDirectivesOfTwo(h1: Header, h2: Header)
    ensures AllDirectives([h1, h2]) == Directives(h1.value, 0) + Directives(h2.value, 0)
  {
    assert [h1, h2][1..] == [h2];
    AllDirectivesOfOne(h2);
  }

  /**
   * From position i on, visible characters that are neither a separator, '=' nor a quote: a
   * word the tokenizer takes as it is.
   */
  predicate TokenFrom(w: string, i: nat)
    decreases |w| - i
  {
    i >= |w| || (' ' < w[i] <= '~' && w[i] !in DirectiveEnd && w[i] != '"' && TokenFrom(w, i + 1))
  }

  lemma {:induction false} TokenFromAll(w: string, i: nat)
    requires TokenFrom(w, i)
    ensures forall j :: i <= j < |w| ==> ' ' < w[j] <= '~' && w[j] !in DirectiveEnd && w[j] != '"'
    decreases |w| - i
  {
    if i < |w| {
      TokenFromAll(w, i + 1);
    }
  }

  /** A value that is one word is one bare directive. */
  lemma TokenIsDirective(w: string)
    requires w != [] && TokenFrom(w, 0)
    ensures Directives(w, 0) == [Directive(w, None)]
  {
    TokenFromAll(w, 0);
    BareExample(w);
  }

  /** name=value, both single words, is one directive with its parameter. */
  lemma NamedParameterIsDirective(name: string, value: string)
    requires name != [] && TokenFrom(name, 0) && value != [] && TokenFrom(value, 0)
    ensures Directives(name + "=" + value, 0) == [Directive(name, Some(value))]
  {
    TokenFromAll(name, 0);
    TokenFromAll(value, 0);
    var v := name + "=" + value;
    var eq := |name|;
    NamedParameterText(name, value);
    PlainParameter(v, 0, eq, eq + 1, |v|);
    TrimOfTrimmed(name);
    TrimOfTrimmed(value);
    assert Directives(v, |v|) == [];
  }

  lemma NamedParameterText(name: string, value: string)
    ensures var v := name + "=" + value;
      && |v| == |name| + 1 + |value| && v[|name|] == '='
      && (forall i :: 0 <= i < |name| ==> v[i] == name[i])
      && (forall i :: |name| < i < |v| ==> v[i] == value[i - |name| - 1])
      && v[0..|name|] == name && v[|name| + 1..|v|] == value
  {
  }

  /** Two headers of one directive each. */
  lemma TwoBareHeaders(hs: seq<Header>, d1: Directive, d2: Directive)
    requires |hs| == 2 && Directives(hs[0].value, 0) == [d1] && Directives(hs[1].value, 0) == [d2]
    ensures Parsed(hs).(headerValue := None) == Apply(Apply(Default, d1), d2)
  {
    assert hs == [hs[0], hs[1]];
    AllDirectivesOfTwo(hs[0], hs[1]);
    TwoDirectives(hs, d1, d2);
  }

  /** With a single directive in all the headers, parse returns that directive applied to the default. */
  lemma SingleDirective(headers: seq<Header>, d: Directive)
    requires AllDirectives(headers) == [d]
    ensures Parsed(headers).(headerValue := None) == Apply(Default, d)
  {
    ParsedIsAllDirectivesApplied(headers);
    assert ApplyAll(Default, [d]) == ApplyAll(Apply(Default, d), []);
  }

  lemma TwoDirectives(headers: seq<Header>, d1: Directive, d2: Directive)
    requires AllDirectives(headers) == [d1, d2]
    ensures Parsed(headers).(headerValue := None) == Apply(Apply(Default, d1), d2)
  {
    ParsedIsAllDirectivesApplied(headers);
    assert [d1, d2][1..] == [d2];
    assert ApplyAll(Default, [d1, d2]) == ApplyAll(Apply(Default, d1), [d2]);
    assert ApplyAll(Apply(Default, d1), [d2]) == ApplyAll(Apply(Apply(Default, d1), d2), []);
  }

  /** ZanCache: max-age=120 asks for entries at most two minutes old. */
  lemma MaxAgeExample(headers: seq<Header>)
    requires headers == [Header(CacheHeader, "max-age=120")]
    ensures Parsed(headers).maxAgeSeconds == 120
    ensures !Parsed(headers).IsCacheOpen()
  {
    var d := Directive("max-age", Some("120"));
    MaxAgeExampleTokens();
    AllDirectivesOfOne(headers[0]);
    SingleDirective(headers, d);
    MaxAgeExampleSeconds();
    assert !IsNoCache(d.name) && IsMaxAge(d.name);
  }

  lemma MaxAgeExampleTokens()
    ensures Directives("max-age=120", 0) == [Directive("max-age", Some("120"))]
  {
    assert TokenFrom("max-age", 0) && TokenFrom("120", 0);
    assert "max-age=120" == "max-age" + "=" + "120";
    NamedParameterIsDirective("max-age", "120");
  }

  lemma MaxAgeExampleSeconds()
    ensures ParseSeconds(Some("120"), -1) == 120
  {
    assert DigitsValue("120") == 120 by {
      assert "120"[..2] == "12" && "12"[..1] == "1" && "1"[..0] == "";
    }
  }

  /**
   * The standard names ignore case, the custom ones do not; and a directive counts in any
   * header, not only in ZanCache.
   */
  lemma CaseExample(hs: seq<Header>)
    requires hs == [Header(CacheHeader, "NO-CACHE"), Header("Accept", "CACHE-BEFORE")]
    ensures Parsed(hs).noCache
    ensures !Parsed(hs).IsCacheOpen()
  {
    var a, b := hs[0].value, hs[1].value;
    CaseExampleTokens(a, b);
    TwoBareHeaders(hs, Directive(a, None), Directive(b, None));
    CaseExamplePolicy(a, b);
  }

  lemma CaseExampleTokens(a: string, b: string)
    requires a == "NO-CACHE" && b == "CACHE-BEFORE"
    ensures Directives(a, 0) == [Directive(a, None)]
    ensures Directives(b, 0) == [Directive(b, None)]
  {
    assert TokenFrom("NO-CACHE", 0);
    assert TokenFrom("CACHE-BEFORE", 6) && TokenFrom("CACHE-BEFORE", 0);
    TokenIsDirective(a);
    TokenIsDirective(b);
  }

  lemma CaseExamplePolicy(a: string, b: string)
    requires a == "NO-CACHE" && b == "CACHE-BEFORE"
    ensures var p := Apply(Apply(Default, Directive(a, None)), Directive(b, None));
      p.noCache && !p.IsCacheOpen()
  {
    assert IsNoCache(a);
    assert !IsNoCache(b) && !IsMaxAge(b) && !IsOnlyIfCached(b) && !IsCacheBefore(b) && !IsRefreshCache(b);
  }

  lemma BareExample(name: string)
    requires name != [] && IsTrimmed(name)
    requires forall i :: 0 <= i < |name| ==> name[i] !in DirectiveEnd
    ensures Directives(name, 0) == [Directive(name, None)]
  {
    assert name[0..|name|] == name;
    BareDirective(name, 0, |name|);
    TrimOfTrimmed(name);
  }
}
