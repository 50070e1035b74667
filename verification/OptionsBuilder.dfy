/** Building a container's search options from its pod's annotations. */
module OptionsBuilder {
  import opened Wrappers
  import opened Text
  import opened SemVerScan
  import opened Api
  import opened Latest

  // ---------- annotation keys ----------

  datatype OptionKey =
    | UseSHA | ResolveSHA | UseMetaData | MatchRegex | PinMajor | PinMinor | PinPatch | OverrideURL

  const DOMAIN := ".version-checker.io"

  /** The annotation key constants. */
  function KeyText(k: OptionKey): string {
    ShortName(k) + DOMAIN
  }

  function ShortName(k: OptionKey): string {
    match k
    case UseSHA => "use-sha"
    case ResolveSHA => "resolve-sha-to-tags"
    case UseMetaData => "use-metadata"
    case MatchRegex => "match-regex"
    case PinMajor => "pin-major"
    case PinMinor => "pin-minor"
    case PinPatch => "pin-patch"
    case OverrideURL => "override-url"
  }

  /** The annotation index of a key for one container. */
  function Index(container: string, key: string): string {
    key + "/" + container
  }

  lemma CutAtSlash(k: string, a: string, l: string, b: string)
    requires Lacks(k, '/') && Lacks(l, '/')
    requires k + ("/" + a) == l + ("/" + b)
    ensures k == l && a == b
  {
    var s := k + ("/" + a);
    assert s[|k|] == '/' && s[|l|] == '/';
    assert forall i :: 0 <= i < |k| ==> s[i] == k[i];
    assert forall i :: 0 <= i < |l| ==> s[i] == l[i];
    assert s[..|k|] == k && s[..|l|] == l;
    assert s[|k| + 1..] == a && s[|l| + 1..] == b;
  }

  /** The index determines the key and the container: keys hold no slash, container names may. */
  lemma IndexInjective(a: string, k: string, b: string, l: string)
    requires Lacks(k, '/') && Lacks(l, '/')
    requires Index(a, k) == Index(b, l)
    ensures k == l && a == b
  {
    assert Index(a, k) == k + ("/" + a) && Index(b, l) == l + ("/" + b);
    CutAtSlash(k, a, l, b);
  }

  // ---------- the builder ----------

  datatype BuildError =
    | RegexDoesNotCompile
    | PinDoesNotParse(key: OptionKey)
    | MinorWithoutMajor
    | PatchWithoutMinor
    | ShaWithSemverOptions

  /** Compiling a regular expression: None when it is malformed. */
  type Compiler = string -> Option<string -> bool>

  /** The three pointers every handler writes through. */
  class Draft {
    var opts: Options
    var setNonSha: bool
    var errs: seq<BuildError>

    constructor ()
      ensures opts == NO_OPTIONS && !setNonSha && errs == []
    {
      opts, setNonSha, errs := NO_OPTIONS, false, [];
    }
  }

  type Annotations = map<string, string>

  /** The annotation of a container, if present. */
  function Lookup(ans: Annotations, container: string, key: OptionKey): Option<string> {
    var index := Index(container, KeyText(key));
    if index in ans then Some(ans[index]) else None
  }

  predicate IsTrue(ans: Annotations, container: string, key: OptionKey) {
    Lookup(ans, container, key) == Some("true")
  }

  class Builder {
    const ans: Annotations
    const compile: Compiler

    constructor (annotations: Annotations, compiler: Compiler)
      ensures ans == annotations && compile == compiler
    {
      ans, compile := annotations, compiler;
    }

    method HandleSHAOption(name: string, d: Draft)
      modifies d
      ensures d.setNonSha == old(d.setNonSha) && d.errs == old(d.errs)
      ensures d.opts == old(d.opts).(useSHA := old(d.opts.useSHA) || IsTrue(ans, name, UseSHA))
    {
      if Lookup(ans, name, UseSHA) == Some("true") {
        d.opts := d.opts.(useSHA := true);
      }
    }

    method HandleSHAToTagOption(name: string, d: Draft)
      modifies d
      ensures d.setNonSha == old(d.setNonSha) && d.errs == old(d.errs)
      ensures d.opts == old(d.opts).(resolveSHAToTags := old(d.opts.resolveSHAToTags) || IsTrue(ans, name, ResolveSHA))
    {
      if Lookup(ans, name, ResolveSHA) == Some("true") {
        d.opts := d.opts.(resolveSHAToTags := true);
      }
    }

    method HandleMetadataOption(name: string, d: Draft)
      modifies d
      ensures d.setNonSha == (old(d.setNonSha) || IsTrue(ans, name, UseMetaData)) && d.errs == old(d.errs)
      ensures d.opts == old(d.opts).(useMetaData := old(d.opts.useMetaData) || IsTrue(ans, name, UseMetaData))
    {
      if Lookup(ans, name, UseMetaData) == Some("true") {
        d.setNonSha := true;
        d.opts := d.opts.(useMetaData := true);
      }
    }

    method HandleRegexOption(name: string, d: Draft)
      modifies d
      ensures var a := Lookup(ans, name, MatchRegex);
        && d.setNonSha == (old(d.setNonSha) || a.Some?)
        && d.opts == (if a.None? then old(d.opts) else old(d.opts).(matchRegex := a,
             regexMatcher := if compile(a.value).Some? then compile(a.value) else old(d.opts.regexMatcher)))
        && d.errs == old(d.errs) + (if a.Some? && compile(a.value).None? then [RegexDoesNotCompile] else [])
    {
      var matchRegex := Lookup(ans, name, MatchRegex);
      if matchRegex.Some? {
        d.setNonSha := true;
        d.opts := d.opts.(matchRegex := matchRegex);
        var regexMatcher := compile(matchRegex.value);
        if regexMatcher.None? {
          d.errs := d.errs + [RegexDoesNotCompile];
        } else {
          d.opts := d.opts.(regexMatcher := regexMatcher);
        }
      }
    }

    method HandlePinMajorOption(name: string, d: Draft)
      modifies d
      ensures var a := Lookup(ans, name, PinMajor);
        && d.setNonSha == (old(d.setNonSha) || a.Some?)
        && d.opts == (if a.Some? && ParseInt64(a.value).Some?
             then old(d.opts).(pinMajor := ParseInt64(a.value)) else old(d.opts))
        && d.errs == old(d.errs) + (if a.Some? && ParseInt64(a.value).None? then [PinDoesNotParse(PinMajor)] else [])
    {
      var pinMajor := Lookup(ans, name, PinMajor);
      if pinMajor.Some? {
        d.setNonSha := true;
        var ma := ParseInt64(pinMajor.value);
        if ma.None? {
          d.errs := d.errs + [PinDoesNotParse(PinMajor)];
        } else {
          d.opts := d.opts.(pinMajor := ma);
        }
      }
    }

    method HandlePinMinorOption(name: string, d: Draft)
      modifies d
      ensures var a := Lookup(ans, name, PinMinor); var allowed := old(d.opts).pinMajor.Some?;
        && d.setNonSha == (old(d.setNonSha) || a.Some?)
        && d.opts == (if a.Some? && allowed && ParseInt64(a.value).Some?
             then old(d.opts).(pinMinor := ParseInt64(a.value)) else old(d.opts))
        && d.errs == old(d.errs) +
             (if a.None? then [] else if !allowed then [MinorWithoutMajor]
              else if ParseInt64(a.value).None? then [PinDoesNotParse(PinMinor)] else [])
    {
      var pinMinor := Lookup(ans, name, PinMinor);
      if pinMinor.Some? {
        d.setNonSha := true;
        if d.opts.pinMajor.None? {
          d.errs := d.errs + [MinorWithoutMajor];
        } else {
          var mi := ParseInt64(pinMinor.value);
          if mi.None? {
            d.errs := d.errs + [PinDoesNotParse(PinMinor)];
          } else {
            d.opts := d.opts.(pinMinor := mi);
          }
        }
      }
    }

    method HandlePinPatchOption(name: string, d: Draft)
      modifies d
      ensures var a := Lookup(ans, name, PinPatch);
        var allowed := old(d.opts).pinMajor.Some? && old(d.opts).pinMinor.Some?;
        && d.setNonSha == (old(d.setNonSha) || a.Some?)
        && d.opts == (if a.Some? && allowed && ParseInt64(a.value).Some?
             then old(d.opts).(pinPatch := ParseInt64(a.value)) else old(d.opts))
        && d.errs == old(d.errs) +
             (if a.None? then [] else if !allowed then [PatchWithoutMinor]
              else if ParseInt64(a.value).None? then [PinDoesNotParse(PinPatch)] else [])
    {
      var pinPatch := Lookup(ans, name, PinPatch);
      if pinPatch.Some? {
        d.setNonSha := true;
        if d.opts.pinMajor.None? || d.opts.pinMinor.None? {
          d.errs := d.errs + [PatchWithoutMinor];
        } else {
          var pa := ParseInt64(pinPatch.value);
          if pa.None? {
            d.errs := d.errs + [PinDoesNotParse(PinPatch)];
          } else {
            d.opts := d.opts.(pinPatch := pa);
          }
        }
      }
    }

    /** The three pin handlers, in the order Options runs them. */
    method HandlePinOptions(name: string, d: Draft)
      requires d.opts.pinMajor.None? && d.opts.pinMinor.None? && d.opts.pinPatch.None?
      modifies d
      ensures d.errs == [] <==> old(d.errs) == [] && PinsAccepted(ans, name)
      ensures d.errs == [] ==> d.opts == old(d.opts).(pinMajor := Pin(ans, name, PinMajor),
        pinMinor := Pin(ans, name, PinMinor), pinPatch := Pin(ans, name, PinPatch))
      ensures d.opts.useSHA == old(d.opts.useSHA)
      ensures d.setNonSha ==
        (|| old(d.setNonSha)
         || Present(ans, name, PinMajor) || Present(ans, name, PinMinor) || Present(ans, name, PinPatch))
    {
      hide Lookup, ParseInt64;
      HandlePinMajorOption(name, d);
      HandlePinMinorOption(name, d);
      HandlePinPatchOption(name, d);
    }

    method HandleOverrideURLOption(name: string, d: Draft)
      modifies d
      ensures d.setNonSha == old(d.setNonSha) && d.errs == old(d.errs)
      ensures var a := Lookup(ans, name, OverrideURL);
        d.opts == if a.Some? then old(d.opts).(overrideURL := a) else old(d.opts)
    {
      var overrideURL := Lookup(ans, name, OverrideURL);
      if overrideURL.Some? {
        d.opts := d.opts.(overrideURL := overrideURL);
      }
    }

    /** Builder.Options: runs the handlers in order; any error makes the whole build fail. */
    method Options(name: string) returns (r: Option<Options>, errs: seq<BuildError>)
      ensures r.Some? <==> Acceptable(ans, compile, name)
      ensures r.Some? ==> r.value == BuiltOptions(ans, compile, name)
      ensures r.None? <==> errs != []
    {
      hide Lookup, ParseInt64, IsTrue, PinsAccepted, Pin;
      var d := new Draft();
      HandleSHAOption(name, d);
      HandleSHAToTagOption(name, d);
      HandleMetadataOption(name, d);
      HandleRegexOption(name, d);
      HandlePinOptions(name, d);
      HandleOverrideURLOption(name, d);
      if d.opts.useSHA && d.setNonSha {
        d.errs := d.errs + [ShaWithSemverOptions];
      }
      errs := d.errs;
      r := if |errs| > 0 then None else Some(d.opts);
    }
  }

  // ---------- which annotations are accepted, and what they mean ----------

  predicate Present(ans: Annotations, name: string, key: OptionKey) {
    Lookup(ans, name, key).Some?
  }

  /** The pin is absent, or a 64-bit integer. */
  predicate PinParses(ans: Annotations, name: string, key: OptionKey) {
    Present(ans, name, key) ==> ParseInt64(Lookup(ans, name, key).value).Some?
  }

  predicate AnySemverOption(ans: Annotations, name: string) {
    || IsTrue(ans, name, UseMetaData)
    || Present(ans, name, MatchRegex)
    || Present(ans, name, PinMajor) || Present(ans, name, PinMinor) || Present(ans, name, PinPatch)
  }

  predicate RegexCompiles(ans: Annotations, compile: Compiler, name: string) {
    Present(ans, name, MatchRegex) ==> compile(Lookup(ans, name, MatchRegex).value).Some?
  }

  /** Every pin parses, and none comes without the one before it. */
  predicate PinsAccepted(ans: Annotations, name: string) {
    && PinParses(ans, name, PinMajor) && PinParses(ans, name, PinMinor) && PinParses(ans, name, PinPatch)
    && (Present(ans, name, PinPatch) ==> Present(ans, name, PinMinor))
    && (Present(ans, name, PinMinor) ==> Present(ans, name, PinMajor))
  }

  /** The annotations of a container that build without an error. */
  predicate Acceptable(ans: Annotations, compile: Compiler, name: string) {
    && RegexCompiles(ans, compile, name)
    && PinsAccepted(ans, name)
    && !(IsTrue(ans, name, UseSHA) && AnySemverOption(ans, name))
  }

  function Pin(ans: Annotations, name: string, key: OptionKey): Option<int> {
    match Lookup(ans, name, key)
    case None => None
    case Some(text) => ParseInt64(text)
  }

  /** What acceptable annotations mean. */
  function BuiltOptions(ans: Annotations, compile: Compiler, name: string): Options {
    var regex := Lookup(ans, name, MatchRegex);
    Api.Options(
      Lookup(ans, name, OverrideURL),
      regex,
      Pin(ans, name, PinMajor), Pin(ans, name, PinMinor), Pin(ans, name, PinPatch),
      if regex.Some? then compile(regex.value) else None,
      IsTrue(ans, name, UseSHA), IsTrue(ans, name, ResolveSHA), IsTrue(ans, name, UseMetaData))
  }

  /** Built options pin from the left and never mix digest mode with a semver option. */
  lemma BuiltOptionsAreConsistent(ans: Annotations, compile: Compiler, name: string)
    requires Acceptable(ans, compile, name)
    ensures var o := BuiltOptions(ans, compile, name);
      && (o.pinPatch.Some? ==> o.pinMinor.Some?) && (o.pinMinor.Some? ==> o.pinMajor.Some?)
      && (o.useSHA ==> !o.useMetaData && o.matchRegex.None? && o.regexMatcher.None? && o.pinMajor.None?)
      && (o.matchRegex.Some? <==> o.regexMatcher.Some?)
  {
  }

  lemma LacksConcat(a: string, b: string, c: char)
    requires Lacks(a, c) && Lacks(b, c)
    ensures Lacks(a + b, c)
  {
  }

  lemma KeysLackSlash(k: OptionKey)
    ensures Lacks(KeyText(k), '/')
  {
    LacksConcat(ShortName(k), DOMAIN, '/');
  }

  /** Setting any annotation for one container changes nothing for another. */
  lemma OtherContainerUnaffected(ans: Annotations, compile: Compiler, name: string,
                                 other: string, key: string, text: string)
    requires other != name && Lacks(key, '/')
    ensures Acceptable(ans[Index(other, key) := text], compile, name) == Acceptable(ans, compile, name)
    ensures BuiltOptions(ans[Index(other, key) := text], compile, name) == BuiltOptions(ans, compile, name)
  {
    forall k: OptionKey
      ensures Lookup(ans[Index(other, key) := text], name, k) == Lookup(ans, name, k)
    {
      hide Index;
      KeysLackSlash(k);
      if Index(other, key) == Index(name, KeyText(k)) { IndexInjective(other, key, name, KeyText(k)); }
    }
  }

  /** Without a regular expression the selected tag agrees with every pin, and three pins fix its numbers. */
  lemma PinsDecideTheTag(ans: Annotations, compile: Compiler, name: string, tags: seq<ImageTag>, k: nat)
    requires Acceptable(ans, compile, name) && !Present(ans, name, MatchRegex)
    requires LatestSemverIndex(BuiltOptions(ans, compile, name), tags) == Some(k)
    ensures k < |tags|
    ensures var v := Parsed(tags[k].tag).version;
      && (Present(ans, name, PinMajor) ==> Pin(ans, name, PinMajor) == Some(v[0]))
      && (Present(ans, name, PinMinor) ==> Pin(ans, name, PinMinor) == Some(v[1]))
      && (Present(ans, name, PinPatch) ==>
            [Pin(ans, name, PinMajor), Pin(ans, name, PinMinor), Pin(ans, name, PinPatch)]
            == [Some(v[0]), Some(v[1]), Some(v[2])])
  {
    hide Scan, Lookup;
    assert Candidate(BuiltOptions(ans, compile, name), tags[k]);
  }

  // ---------- the annotations as they are written ----------

  /** The pod has the annotation for the container, with this text. */
  predicate Says(ans: Annotations, name: string, option: string, text: string) {
    var key := option + ".version-checker.io/" + name;
    key in ans && ans[key] == text
  }

  predicate Given(ans: Annotations, name: string, option: string) {
    option + ".version-checker.io/" + name in ans
  }

  lemma WrittenAs(ans: Annotations, name: string, key: OptionKey, option: string)
    requires ShortName(key) == option
    ensures forall text :: Lookup(ans, name, key) == Some(text) <==> Says(ans, name, option, text)
    ensures Lookup(ans, name, key).Some? <==> Given(ans, name, option)
  {
    assert Index(name, KeyText(key)) == option + ".version-checker.io/" + name;
  }

  lemma AllWrittenAs(ans: Annotations, name: string)
    ensures forall text :: Lookup(ans, name, UseSHA) == Some(text) <==> Says(ans, name, "use-sha", text)
    ensures forall text :: Lookup(ans, name, ResolveSHA) == Some(text) <==> Says(ans, name, "resolve-sha-to-tags", text)
    ensures forall text :: Lookup(ans, name, UseMetaData) == Some(text) <==> Says(ans, name, "use-metadata", text)
    ensures forall text :: Lookup(ans, name, OverrideURL) == Some(text) <==> Says(ans, name, "override-url", text)
    ensures forall text :: Lookup(ans, name, MatchRegex) == Some(text) <==> Says(ans, name, "match-regex", text)
    ensures forall text :: Lookup(ans, name, PinMajor) == Some(text) <==> Says(ans, name, "pin-major", text)
    ensures forall text :: Lookup(ans, name, PinMinor) == Some(text) <==> Says(ans, name, "pin-minor", text)
    ensures forall text :: Lookup(ans, name, PinPatch) == Some(text) <==> Says(ans, name, "pin-patch", text)
  {
    hide Lookup, Says;
    WrittenAs(ans, name, UseSHA, "use-sha");
    WrittenAs(ans, name, ResolveSHA, "resolve-sha-to-tags");
    WrittenAs(ans, name, UseMetaData, "use-metadata");
    WrittenAs(ans, name, OverrideURL, "override-url");
    WrittenAs(ans, name, MatchRegex, "match-regex");
    WrittenAs(ans, name, PinMajor, "pin-major");
    WrittenAs(ans, name, PinMinor, "pin-minor");
    WrittenAs(ans, name, PinPatch, "pin-patch");
  }

  /** Which annotation sets what, by the text of its key; a switch is on only for the text true. */
  lemma AnnotationsMean(ans: Annotations, compile: Compiler, name: string)
    ensures var o := BuiltOptions(ans, compile, name);
      && (o.useSHA <==> Says(ans, name, "use-sha", "true"))
      && (o.resolveSHAToTags <==> Says(ans, name, "resolve-sha-to-tags", "true"))
      && (o.useMetaData <==> Says(ans, name, "use-metadata", "true"))
      && (forall text :: o.overrideURL == Some(text) <==> Says(ans, name, "override-url", text))
      && (forall text :: o.matchRegex == Some(text) <==> Says(ans, name, "match-regex", text))
      && (forall text :: Says(ans, name, "match-regex", text) ==> o.regexMatcher == compile(text))
  {
    hide Lookup, Says;
    AllWrittenAs(ans, name);
  }

  /** A pin is the number written, up to the largest int64. */
  lemma PinsMean(ans: Annotations, compile: Compiler, name: string, n: nat)
    requires n <= 9223372036854775807
    ensures var o := BuiltOptions(ans, compile, name);
      && (Says(ans, name, "pin-major", PrintNat(n)) ==> o.pinMajor == Some(n))
      && (Says(ans, name, "pin-minor", PrintNat(n)) ==> o.pinMinor == Some(n))
      && (Says(ans, name, "pin-patch", PrintNat(n)) ==> o.pinPatch == Some(n))
  {
    hide Lookup, Says, ParseInt64, PrintNat;
    AllWrittenAs(ans, name);
    PrintedIntParses(n);
  }

  /** What the builder refuses: digest mode with any semver option, and a pin without the one before it. */
  lemma RefusedTogether(ans: Annotations, compile: Compiler, name: string)
    requires Acceptable(ans, compile, name)
    ensures Says(ans, name, "use-sha", "true") ==>
      && !Says(ans, name, "use-metadata", "true") && !Given(ans, name, "match-regex")
      && !Given(ans, name, "pin-major") && !Given(ans, name, "pin-minor") && !Given(ans, name, "pin-patch")
    ensures Given(ans, name, "pin-patch") ==> Given(ans, name, "pin-minor")
    ensures Given(ans, name, "pin-minor") ==> Given(ans, name, "pin-major")
    ensures forall text :: Says(ans, name, "match-regex", text) ==> compile(text).Some?
  {
    hide Lookup, Says, Given, PinParses;
    AllWrittenAs(ans, name);
    WrittenAs(ans, name, MatchRegex, "match-regex");
    WrittenAs(ans, name, PinMajor, "pin-major");
    WrittenAs(ans, name, PinMinor, "pin-minor");
    WrittenAs(ans, name, PinPatch, "pin-patch");
  }

  /** Without any of the semver options, no annotation of the container makes the build fail. */
  lemma AcceptedWithout(ans: Annotations, compile: Compiler, name: string)
    requires !Given(ans, name, "use-metadata") && !Given(ans, name, "match-regex")
    requires !Given(ans, name, "pin-major") && !Given(ans, name, "pin-minor") && !Given(ans, name, "pin-patch")
    ensures Acceptable(ans, compile, name)
  {
    hide Lookup, Says, Given;
    WrittenAs(ans, name, UseMetaData, "use-metadata");
    WrittenAs(ans, name, MatchRegex, "match-regex");
    WrittenAs(ans, name, PinMajor, "pin-major");
    WrittenAs(ans, name, PinMinor, "pin-minor");
    WrittenAs(ans, name, PinPatch, "pin-patch");
  }

  /** In version mode, pins that are integers and come in order, and an expression that compiles, are accepted. */
  lemma AcceptedInVersionMode(ans: Annotations, compile: Compiler, name: string)
    requires !Says(ans, name, "use-sha", "true")
    requires forall text :: Says(ans, name, "match-regex", text) ==> compile(text).Some?
    requires Given(ans, name, "pin-patch") ==> Given(ans, name, "pin-minor")
    requires Given(ans, name, "pin-minor") ==> Given(ans, name, "pin-major")
    requires forall text :: (Says(ans, name, "pin-major", text) || Says(ans, name, "pin-minor", text)
                             || Says(ans, name, "pin-patch", text)) ==> ParseInt64(text).Some?
    ensures Acceptable(ans, compile, name)
  {
    hide Lookup, Says, Given, ParseInt64;
    AllWrittenAs(ans, name);
    WrittenAs(ans, name, PinMajor, "pin-major");
    WrittenAs(ans, name, PinMinor, "pin-minor");
    WrittenAs(ans, name, PinPatch, "pin-patch");
  }
}
