/**
 * Release version selection (scripts/sync_version.py and
 * scripts/release_version.py): stable versions of Semantic Versioning 2.0.0,
 * their text form, precedence (clause 11), the three increments (clauses 6 to
 * 8), and the options offered for a set of published tags.
 */
module Release {

  import opened Options

  datatype Version = Version(major: nat, minor: nat, patch: nat)

  datatype Part = Major | Minor | Patch

  // ------------------------------------------------------------ numerals

  function Digit(d: nat): char
    requires d < 10
  {
    ('0' as int + d) as char
  }

  predicate IsDigit(c: char) {
    '0' <= c <= '9'
  }

  function DigitValue(c: char): (d: nat)
    requires IsDigit(c)
    ensures d < 10
  {
    c as int - '0' as int
  }

  function PrintNat(n: nat): string {
    if n < 10 then [Digit(n)] else PrintNat(n / 10) + [Digit(n % 10)]
  }

  predicate AllDigits(s: string) {
    forall i :: 0 <= i < |s| ==> IsDigit(s[i])
  }

  /** `0|[1-9]\d*` with ASCII digits. */
  predicate Numeral(s: string) {
    s != "" && AllDigits(s) && (|s| > 1 ==> s[0] != '0')
  }

  function ValueOf(s: string): nat
    requires AllDigits(s)
  {
    if s == "" then 0 else ValueOf(s[..|s| - 1]) * 10 + DigitValue(s[|s| - 1])
  }

  lemma DigitRoundTrip(d: nat)
    requires d < 10
    ensures IsDigit(Digit(d)) && DigitValue(Digit(d)) == d && (Digit(d) == '0' <==> d == 0)
  {
  }

  lemma DigitOfValue(c: char)
    requires IsDigit(c)
    ensures Digit(DigitValue(c)) == c
  {
  }

  /** The decimal numeral: the digits of the tens, then the character of the last digit. */
  lemma DecimalNumeral(n: nat)
    ensures PrintNat(n) == (if n < 10 then "" else PrintNat(n / 10)) + ["0123456789"[n % 10]]
  {
    assert forall d :: 0 <= d < 10 ==> Digit(d) == "0123456789"[d];
  }

  lemma {:induction false} PrintNatParses(n: nat)
    ensures Numeral(PrintNat(n)) && ValueOf(PrintNat(n)) == n
    ensures n > 0 ==> PrintNat(n)[0] != '0'
  {
    if n < 10 {
      DigitRoundTrip(n);
      assert PrintNat(n)[..0] == "";
    } else {
      PrintNatParses(n / 10);
      DigitRoundTrip(n % 10);
      var s := PrintNat(n);
      assert s[..|s| - 1] == PrintNat(n / 10);
    }
  }

  lemma {:induction false} NumeralPrints(s: string)
    requires Numeral(s)
    ensures PrintNat(ValueOf(s)) == s
    ensures |s| > 1 ==> ValueOf(s) >= 10
    ensures s[0] != '0' ==> ValueOf(s) > 0
  {
    var n := |s| - 1;
    DigitOfValue(s[n]);
    if n == 0 {
      assert s[..n] == "" && ValueOf(s[..n]) == 0;
      DigitRoundTrip(DigitValue(s[0]));
    } else {
      NumeralPrints(s[..n]);
      PrintAppends(ValueOf(s[..n]), DigitValue(s[n]));
      assert s == s[..n] + [s[n]];
    }
  }

  lemma PrintAppends(q: nat, d: nat)
    requires q > 0 && d < 10
    ensures PrintNat(q * 10 + d) == PrintNat(q) + [Digit(d)]
  {
    assert (q * 10 + d) / 10 == q && (q * 10 + d) % 10 == d;
  }

  // ------------------------------------------------------------ versions as text

  function Print(v: Version): string {
    PrintNat(v.major) + ("." + (PrintNat(v.minor) + ("." + PrintNat(v.patch))))
  }

  /** The first dot, or the length. */
  function DotAt(s: string): (k: nat)
    ensures k <= |s| && (k < |s| ==> s[k] == '.') && forall i :: 0 <= i < k ==> s[i] != '.'
  {
    if s == "" || s[0] == '.' then 0 else 1 + DotAt(s[1..])
  }

  /** `MAJOR.MINOR.PATCH` and nothing else. */
  function ParsePlain(s: string): Option<Version> {
    var i := DotAt(s);
    if i == |s| then None else
      var rest := s[i + 1..];
      var j := DotAt(rest);
      if j == |rest| then None else
        var a, b, c := s[..i], rest[..j], rest[j + 1..];
        if Numeral(a) && Numeral(b) && Numeral(c) then Some(Version(ValueOf(a), ValueOf(b), ValueOf(c))) else None
  }

  /** A published tag: the same with an optional `v` in front. */
  function ParseTag(tag: string): Option<Version> {
    if tag != "" && tag[0] == 'v' then ParsePlain(tag[1..]) else ParsePlain(tag)
  }

  /** The project's own version: no `v`, no pre-release; anything else exits. */
  function StableTuple(version: string): Option<Version> {
    if version != "" && version[0] == 'v' then None else ParseTag(version)
  }

  lemma DotAfterDigits(s: string, rest: string)
    requires AllDigits(s)
    ensures DotAt(s + ("." + rest)) == |s|
  {
    var text := s + ("." + rest);
    assert text[|s|] == '.';
    assert forall i :: 0 <= i < |s| ==> text[i] != '.' by {
      forall i | 0 <= i < |s| ensures text[i] != '.' { assert IsDigit(s[i]); }
    }
  }

  function Dotted(a: string, b: string, c: string): string {
    a + ("." + (b + ("." + c)))
  }

  lemma DottedParses(a: string, b: string, c: string)
    requires Numeral(a) && Numeral(b) && Numeral(c)
    ensures ParsePlain(Dotted(a, b, c)) == Some(Version(ValueOf(a), ValueOf(b), ValueOf(c)))
  {
    var s, rest := Dotted(a, b, c), b + ("." + c);
    DotAfterDigits(a, rest);
    DotAfterDigits(b, c);
    assert s[..|a|] == a && s[|a| + 1..] == rest;
    assert rest[..|b|] == b && rest[|b| + 1..] == c;
  }

  lemma ParsedIsDotted(s: string) returns (a: string, b: string, c: string)
    requires ParsePlain(s).Some?
    ensures Numeral(a) && Numeral(b) && Numeral(c) && s == Dotted(a, b, c)
    ensures ParsePlain(s) == Some(Version(ValueOf(a), ValueOf(b), ValueOf(c)))
  {
    var i := DotAt(s);
    var rest := s[i + 1..];
    var j := DotAt(rest);
    a, b, c := s[..i], rest[..j], rest[j + 1..];
    SplitAtDot(rest);
    SplitAtDot(s);
  }

  lemma SplitAtDot(s: string)
    requires DotAt(s) < |s|
    ensures s == s[..DotAt(s)] + ("." + s[DotAt(s) + 1..])
  {
  }

  /** Parsing a printed version gives it back, with or without the `v`. */
  lemma PrintParses(v: Version)
    ensures ParsePlain(Print(v)) == Some(v) && StableTuple(Print(v)) == Some(v)
    ensures ParseTag(Print(v)) == Some(v) && ParseTag("v" + Print(v)) == Some(v)
  {
    var a, b, c := PrintNat(v.major), PrintNat(v.minor), PrintNat(v.patch);
    PrintNatParses(v.major);
    PrintNatParses(v.minor);
    PrintNatParses(v.patch);
    DottedParses(a, b, c);
    Spellings(Dotted(a, b, c), a[0]);
  }

  lemma Spellings(s: string, first: char)
    requires s != "" && s[0] == first && IsDigit(first)
    ensures ParseTag(s) == ParsePlain(s) == ParseTag("v" + s) == StableTuple(s)
  {
    assert ("v" + s)[1..] == s;
  }

  /** A version has exactly two published spellings. */
  lemma ParseTagPrints(tag: string)
    requires ParseTag(tag).Some?
    ensures tag == Print(ParseTag(tag).value) || tag == "v" + Print(ParseTag(tag).value)
  {
    if tag != "" && tag[0] == 'v' {
      PlainIsPrinted(tag[1..]);
      assert tag == "v" + tag[1..];
    } else {
      PlainIsPrinted(tag);
    }
  }

  lemma PlainIsPrinted(s: string)
    requires ParsePlain(s).Some?
    ensures s == Print(ParsePlain(s).value)
  {
    var a, b, c := ParsedIsDotted(s);
    NumeralPrints(a);
    NumeralPrints(b);
    NumeralPrints(c);
  }

  // ------------------------------------------------------------ precedence and increments

  /** Tuple comparison: clause 11 for stable versions. */
  predicate Less(a: Version, b: Version) {
    || a.major < b.major
    || (a.major == b.major && (a.minor < b.minor || (a.minor == b.minor && a.patch < b.patch)))
  }

  function Later(a: Version, b: Version): Version {
    if Less(a, b) then b else a
  }

  function BumpVersion(v: Version, part: Part): Version {
    match part
    case Major => Version(v.major + 1, 0, 0)
    case Minor => Version(v.major, v.minor + 1, 0)
    case Patch => Version(v.major, v.minor, v.patch + 1)
  }

  /** `bump`: exits on anything but a plain stable version. */
  function Bump(version: string, part: Part): Option<string> {
    var v := ParsePlain(version);
    if v.None? then None else Some(Print(BumpVersion(v.value, part)))
  }

  lemma BumpIsLater(v: Version, part: Part)
    ensures Less(v, BumpVersion(v, part))
  {
  }

  /** `w` differs from `v` in the given part or a more significant one, and is later. */
  predicate Exceeds(w: Version, v: Version, part: Part) {
    match part
    case Major => v.major < w.major
    case Minor => v.major < w.major || (v.major == w.major && v.minor < w.minor)
    case Patch => Less(v, w)
  }

  /** Clauses 6 to 8: an increment is the earliest version that exceeds the old one in its part, so lower parts reset. */
  lemma BumpIsEarliest(v: Version, part: Part, w: Version)
    ensures Exceeds(BumpVersion(v, part), v, part)
    ensures Exceeds(w, v, part) <==> !Less(w, BumpVersion(v, part))
  {
  }

  // ------------------------------------------------------------ published tags

  ghost predicate AtLeastAll(v: Version, tags: set<string>) {
    forall t :: t in tags && ParseTag(t).Some? ==> !Less(v, ParseTag(t).value)
  }

  ghost predicate AboveAll(v: Version, tags: set<string>) {
    forall t :: t in tags && ParseTag(t).Some? ==> Less(ParseTag(t).value, v)
  }

  /** `latest_published_version`: the maximum of the stable tags, if there is one. */
  method LatestPublished(tags: set<string>) returns (latest: Option<Version>)
    ensures latest.None? <==> forall t :: t in tags ==> ParseTag(t).None?
    ensures latest.Some? ==> AtLeastAll(latest.value, tags) && exists t :: t in tags && ParseTag(t) == latest
  {
    latest := None;
    var pending := tags;
    while pending != {}
      invariant pending <= tags
      invariant latest.None? ==> forall t :: t in tags - pending ==> ParseTag(t).None?
      invariant latest.Some? ==> AtLeastAll(latest.value, tags - pending) && exists t :: t in tags && ParseTag(t) == latest
      decreases pending
    {
      var tag :| tag in pending;
      pending := pending - {tag};
      var parsed := ParseTag(tag);
      if parsed.Some? && (latest.None? || Less(latest.value, parsed.value)) {
        latest := parsed;
      }
    }
    assert tags - pending == tags;
  }

  /** `release_base_version`: the later of the project's version and the latest published one. */
  method ReleaseBase(project: string, tags: set<string>) returns (base: Option<string>, ghost v: Version)
    ensures base.None? <==> StableTuple(project).None?
    ensures base.Some? ==> base.value == Print(v) && IsBase(v, StableTuple(project).value, tags)
  {
    var current := StableTuple(project);
    if current.None? {
      return None, Version(0, 0, 0);
    }
    var published := LatestPublished(tags);
    var later := if published.Some? then Later(current.value, published.value) else current.value;
    assert AtLeastAll(later, tags);
    return Some(Print(later)), later;
  }

  /** A version later than every published one is not among the tags under either spelling. */
  lemma LaterIsUnpublished(v: Version, tags: set<string>)
    requires AboveAll(v, tags)
    ensures Print(v) !in tags && "v" + Print(v) !in tags
  {
    PrintParses(v);
  }

  lemma BumpedIsAbove(base: Version, part: Part, tags: set<string>)
    requires AtLeastAll(base, tags)
    ensures AboveAll(BumpVersion(base, part), tags)
  {
    BumpIsLater(base, part);
  }

  const BUMP_ORDER: seq<Part> := [Major, Minor, Patch]

  /** The offer for a base version: each of the three increments of it. */
  ghost predicate Offers(options: map<Part, string>, base: Version) {
    && options.Keys == {Major, Minor, Patch}
    && forall part :: part in options ==> options[part] == Print(BumpVersion(base, part))
  }

  /** The base is the latest of the project's version and the published ones. */
  ghost predicate IsBase(base: Version, project: Version, tags: set<string>) {
    && !Less(base, project) && AtLeastAll(base, tags)
    && (base == project || exists t :: t in tags && ParseTag(t) == Some(base))
  }

  method OfferIncrements(base: string, ghost v: Version, tags: set<string>) returns (found: map<Part, string>)
    requires base == Print(v) && AtLeastAll(v, tags)
    ensures Offers(found, v)
  {
    found := map[];
    for i := 0 to 3
      invariant forall j :: 0 <= j < i ==> BUMP_ORDER[j] in found
      invariant forall part :: part in found ==> found[part] == Print(BumpVersion(v, part))
    {
      var part := BUMP_ORDER[i];
      OptionIsFree(v, part, tags);
      var version := Bump(base, part).value;
      if version !in tags && "v" + version !in tags {
        found := found[part := version];
      }
    }
    assert BUMP_ORDER[0] in found && BUMP_ORDER[1] in found && BUMP_ORDER[2] in found;
    AllParts(found.Keys);
  }

  /**
   * `release_options`.  For a stable project version every increment is
   * offered, whatever the tags; otherwise the script exits.
   */
  method ReleaseOptions(project: string, tags: set<string>) returns (options: Option<map<Part, string>>)
    ensures options.None? <==> StableTuple(project).None?
    ensures options.Some? ==> exists base :: IsBase(base, StableTuple(project).value, tags) && Offers(options.value, base)
  {
    var base, v := ReleaseBase(project, tags);
    if base.None? {
      return None;
    }
    var found := OfferIncrements(base.value, v, tags);
    options := Some(found);
  }

  lemma OptionIsFree(base: Version, part: Part, tags: set<string>)
    requires AtLeastAll(base, tags)
    ensures Bump(Print(base), part) == Some(Print(BumpVersion(base, part)))
    ensures Print(BumpVersion(base, part)) !in tags && "v" + Print(BumpVersion(base, part)) !in tags
  {
    PrintParses(base);
    BumpedIsAbove(base, part, tags);
    LaterIsUnpublished(BumpVersion(base, part), tags);
  }

  lemma AllParts(parts: set<Part>)
    requires Major in parts && Minor in parts && Patch in parts
    ensures parts == {Major, Minor, Patch} && forall part: Part :: part in parts
  {
    forall part: Part
      ensures part in parts && part in {Major, Minor, Patch}
    {
      match part {
        case Major =>
        case Minor =>
        case Patch =>
      }
    }
  }

  // ------------------------------------------------------------ the increment check

  /** `check_image_version_increment`, which exits unless it accepts. */
  method CheckIncrement(version: string, tags: set<string>) returns (accepted: bool)
    ensures accepted <==> StableTuple(version).Some? && AboveAll(StableTuple(version).value, tags)
  {
    var current := StableTuple(version);
    if current.None? {
      return false;
    }
    StableTextIsPrinted(version);
    if version in tags || "v" + version in tags {
      PrintParses(current.value);
      return false;
    }
    var latest := LatestPublished(tags);
    if latest.None? {
      return true;
    }
    return Less(latest.value, current.value);
  }

  lemma StableTextIsPrinted(version: string)
    requires StableTuple(version).Some?
    ensures version == Print(StableTuple(version).value)
  {
    ParseTagPrints(version);
  }

  /** Every option offered exceeds every published tag and passes the increment check. */
  lemma OptionsAreAccepted(base: Version, part: Part, tags: set<string>)
    requires AtLeastAll(base, tags)
    ensures var option := Print(BumpVersion(base, part));
            StableTuple(option) == Some(BumpVersion(base, part)) && AboveAll(StableTuple(option).value, tags)
  {
    PrintParses(BumpVersion(base, part));
    BumpedIsAbove(base, part, tags);
  }

  // ------------------------------------------------------------ several pull requests

  function PartOf(selection: string): Option<Part> {
    if selection == "major" then Some(Major)
    else if selection == "minor" then Some(Minor)
    else if selection == "patch" then Some(Patch)
    else None
  }

  function Rank(part: Part): nat {
    match part
    case Major => 0
    case Minor => 1
    case Patch => 2
  }

  function PartsOf(selections: seq<string>): (parts: seq<Option<Part>>)
    ensures |parts| == |selections| && forall i :: 0 <= i < |parts| ==> parts[i] == PartOf(selections[i])
  {
    seq(|selections|, i requires 0 <= i < |selections| => PartOf(selections[i]))
  }

  /** `strongest_bump` over what the selections name: unknown ones are ignored, the lowest rank wins. */
  function Strongest(parts: seq<Option<Part>>): Option<Part> {
    if parts == [] then None else
      var rest, last := Strongest(parts[..|parts| - 1]), parts[|parts| - 1];
      if last.None? then rest
      else if rest.None? || Rank(last.value) < Rank(rest.value) then last
      else rest
  }

  lemma {:induction false} StrongestIsLowest(parts: seq<Option<Part>>)
    ensures Strongest(parts).None? <==> forall i :: 0 <= i < |parts| ==> parts[i].None?
    ensures Strongest(parts).Some? ==> Strongest(parts) in parts
    ensures forall i :: 0 <= i < |parts| && parts[i].Some? ==>
              Strongest(parts).Some? && Rank(Strongest(parts).value) <= Rank(parts[i].value)
  {
    if parts != [] {
      var n := |parts| - 1;
      StrongestIsLowest(parts[..n]);
      assert Strongest(parts) == Strongest(parts[..n]) || Strongest(parts) == parts[n];
    }
  }

  lemma LowerRankIsLater(base: Version, a: Part, b: Part)
    requires Rank(a) <= Rank(b)
    ensures !Less(BumpVersion(base, a), BumpVersion(base, b))
  {
  }

  /** No pull request's increment is reduced: the release is one of the requested versions and at least each of them. */
  lemma StrongestCoversAll(selections: seq<string>, base: Version, i: nat)
    requires i < |selections| && PartOf(selections[i]).Some?
    ensures var strongest := Strongest(PartsOf(selections));
            && strongest.Some?
            && strongest in PartsOf(selections)
            && !Less(BumpVersion(base, strongest.value), BumpVersion(base, PartOf(selections[i]).value))
  {
    var parts := PartsOf(selections);
    StrongestIsLowest(parts);
    LowerRankIsLater(base, Strongest(parts).value, parts[i].value);
  }

  /** By name: one "major" makes the release major, else one "minor" minor, else one "patch" patch; anything else is ignored. */
  lemma StrongestNamed(selections: seq<string>)
    ensures var strongest := Strongest(PartsOf(selections));
            if "major" in selections then strongest == Some(Major)
            else if "minor" in selections then strongest == Some(Minor)
            else if "patch" in selections then strongest == Some(Patch)
            else strongest == None
  {
    var parts := PartsOf(selections);
    StrongestIsLowest(parts);
    Named(selections, "major", Major);
    Named(selections, "minor", Minor);
    Named(selections, "patch", Patch);
    if Strongest(parts).Some? {
      var i :| 0 <= i < |parts| && parts[i] == Strongest(parts);
      assert selections[i] in selections;
    }
  }

  lemma Named(selections: seq<string>, name: string, part: Part)
    requires name in selections ==> PartOf(name) == Some(part)
    ensures name in selections ==>
              exists i :: 0 <= i < |selections| && PartsOf(selections)[i] == Some(part)
  {
    if name in selections {
      var i :| 0 <= i < |selections| && selections[i] == name;
      assert PartsOf(selections)[i] == Some(part);
    }
  }

  /** `effective_release_bump` without a selection: patch, since patch is always on offer. */
  function EffectiveBump(selected: Option<Part>, options: map<Part, string>): (Option<Part>, bool) {
    if selected.Some? then (selected, false)
    else if Patch in options then (Some(Patch), true)
    else (None, true)
  }

  /** Whatever `release_options` offers, the branch that finds no increment is never taken and the choice is on offer. */
  lemma NoOptionBranchIsDead(selected: Option<Part>, options: map<Part, string>, base: Version, tags: set<string>)
    requires Offers(options, base) && AtLeastAll(base, tags)
    ensures var chosen := EffectiveBump(selected, options).0;
            && chosen.Some? && chosen.value in options
            && chosen.value == (if selected.Some? then selected.value else Patch)
            && StableTuple(options[chosen.value]) == Some(BumpVersion(base, chosen.value))
            && AboveAll(BumpVersion(base, chosen.value), tags)
  {
    AllParts(options.Keys);
    var chosen := EffectiveBump(selected, options).0.value;
    OptionsAreAccepted(base, chosen, tags);
  }
}
