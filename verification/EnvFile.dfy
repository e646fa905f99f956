/**
 * Merging values into a .env file (src/pheasant/setup_wizard.py): quoting,
 * recognising assignment lines, replacing or appending them, and rendering
 * the text.
 */
module EnvFile {

  import opened Options
  import opened Sequences

  // ------------------------------------------------------------ characters

  /** `str.isspace`, which is also what `\s` matches. */
  predicate IsSpace(c: char) {
    var n := c as int;
    || 9 <= n <= 13 || 28 <= n <= 32 || n == 0x85 || n == 0xA0 || n == 0x1680
    || 0x2000 <= n <= 0x200A || n == 0x2028 || n == 0x2029 || n == 0x202F || n == 0x205F || n == 0x3000
  }

  /** Where `str.splitlines` breaks. */
  predicate IsBreak(c: char) {
    var n := c as int;
    10 <= n <= 13 || 28 <= n <= 30 || n == 0x85 || n == 0x2028 || n == 0x2029
  }

  predicate IsNameStart(c: char) {
    'A' <= c <= 'Z' || 'a' <= c <= 'z' || c == '_'
  }

  predicate IsNameChar(c: char) {
    IsNameStart(c) || '0' <= c <= '9'
  }

  predicate ValidName(name: string) {
    name != "" && IsNameStart(name[0]) && forall i :: 0 <= i < |name| ==> IsNameChar(name[i])
  }

  predicate OneLine(s: string) {
    forall i :: 0 <= i < |s| ==> !IsBreak(s[i])
  }

  // ------------------------------------------------------------ quoting

  /** `s.replace(c, r)` for a one-character `c`. */
  function Replace(s: string, c: char, r: string): string {
    if s == "" then "" else (if s[0] == c then r else [s[0]]) + Replace(s[1..], c, r)
  }

  /** The three replacements in the order the code applies them. */
  function Escaped(v: string): string {
    Replace(Replace(Replace(v, '\\', "\\\\"), '"', "\\\""), '$', "\\$")
  }

  /** The escaper a reader has in mind: a backslash before each of the three characters. */
  function EscapeEach(v: string): string {
    if v == "" then ""
    else (if v[0] == '\\' || v[0] == '"' || v[0] == '$' then ['\\', v[0]] else [v[0]]) + EscapeEach(v[1..])
  }

  lemma {:induction false} ReplaceConcat(s: string, t: string, c: char, r: string)
    ensures Replace(s + t, c, r) == Replace(s, c, r) + Replace(t, c, r)
  {
    if s == "" {
      assert s + t == t;
    } else {
      assert (s + t)[1..] == s[1..] + t;
      ReplaceConcat(s[1..], t, c, r);
    }
  }


  /** Escaping in sequence never escapes an escape: it is the per-character escaper. */
  lemma {:induction false} SequentialIsPerCharacter(v: string)
    ensures Escaped(v) == EscapeEach(v)
  {
    if v != "" {
      var c, rest := [v[0]], v[1..];
      assert v == c + rest;
      ReplaceConcat(c, rest, '\\', "\\\\");
      var a, b := Replace(c, '\\', "\\\\"), Replace(rest, '\\', "\\\\");
      ReplaceConcat(a, b, '"', "\\\"");
      var d, e := Replace(a, '"', "\\\""), Replace(b, '"', "\\\"");
      ReplaceConcat(d, e, '$', "\\$");
      SequentialIsPerCharacter(rest);
      HeadEscaped(v[0]);
    }
  }

  lemma HeadEscaped(c: char)
    ensures Escaped([c]) == if c == '\\' || c == '"' || c == '$' then ['\\', c] else [c]
  {
    ReplaceOne(c, '\\', "\\\\");
    ReplaceOne(c, '"', "\\\"");
    ReplaceOne(c, '$', "\\$");
    if c == '\\' {
      ReplaceTwo("\\\\", '"', "\\\"");
      ReplaceTwo("\\\\", '$', "\\$");
    } else if c == '"' {
      ReplaceTwo("\\\"", '$', "\\$");
    }
  }

  lemma ReplaceOne(x: char, c: char, r: string)
    ensures Replace([x], c, r) == if x == c then r else [x]
  {
    assert [x][1..] == "";
  }

  lemma ReplaceTwo(s: string, c: char, r: string)
    requires |s| == 2 && s[0] != c && s[1] != c
    ensures Replace(s, c, r) == s
  {
    assert s[1..][1..] == "";
    assert Replace(s[1..], c, r) == [s[1]];
  }

  predicate NeedsQuotes(v: string) {
    v == "" || exists i :: 0 <= i < |v| && (IsSpace(v[i]) || v[i] in "#'\"$`\\")
  }

  function QuoteEnv(v: string): string {
    if NeedsQuotes(v) then "\"" + Escaped(v) + "\"" else v
  }

  /** A backslash stands for the character after it. */
  function Decode(s: string): string {
    if s == "" then ""
    else if s[0] == '\\' && |s| >= 2 then [s[1]] + Decode(s[2..])
    else [s[0]] + Decode(s[1..])
  }

  function Unquote(raw: string): string {
    if |raw| >= 2 && raw[0] == '"' then Decode(raw[1..|raw| - 1]) else raw
  }

  lemma {:induction false} DecodeEscaped(v: string)
    ensures Decode(EscapeEach(v)) == v
  {
    if v != "" {
      DecodeEscaped(v[1..]);
      var rest := EscapeEach(v[1..]);
      if v[0] == '\\' || v[0] == '"' || v[0] == '$' {
        assert EscapeEach(v) == ['\\', v[0]] + rest;
        assert (['\\', v[0]] + rest)[2..] == rest;
      } else {
        assert EscapeEach(v) == [v[0]] + rest;
        assert ([v[0]] + rest)[1..] == rest;
      }
      assert v == [v[0]] + v[1..];
    }
  }

  /** Reading a quoted value gives it back, so distinct values are written differently. */
  lemma QuoteRoundTrip(v: string)
    ensures Unquote(QuoteEnv(v)) == v
  {
    if NeedsQuotes(v) {
      SequentialIsPerCharacter(v);
      DecodeEscaped(v);
      var raw := QuoteEnv(v);
      assert raw[1..|raw| - 1] == Escaped(v);
    } else {
      assert v[0] != '"' by {
        assert v[0] in "#'\"$`\\" <==> v[0] == '#' || v[0] == '\'' || v[0] == '"' || v[0] == '$' || v[0] == '`' || v[0] == '\\';
      }
    }
  }

  lemma {:induction false} EscapeNeverShortens(v: string)
    ensures |EscapeEach(v)| >= |v|
  {
    if v != "" {
      EscapeNeverShortens(v[1..]);
    }
  }

  /** A value of at least one character, with no space and none of the six special ones. */
  ghost predicate Plain(v: string) {
    v != "" && forall i :: 0 <= i < |v| ==>
      !IsSpace(v[i]) && v[i] != '#' && v[i] != '\'' && v[i] != '"' && v[i] != '$' && v[i] != '`' && v[i] != '\\'
  }

  /** Values are written as they are exactly when they are plain, and any other between quotes with the escapes. */
  lemma QuotedExactly(v: string)
    ensures QuoteEnv(v) == v <==> Plain(v)
    ensures !Plain(v) ==> QuoteEnv(v) == "\"" + EscapeEach(v) + "\""
  {
    SequentialIsPerCharacter(v);
    EscapeNeverShortens(v);
    assert forall c: char :: c in "#'\"$`\\" <==> c == '#' || c == '\'' || c == '"' || c == '$' || c == '`' || c == '\\';
  }

  lemma QuoteInjective(v: string, w: string)
    requires QuoteEnv(v) == QuoteEnv(w)
    ensures v == w
  {
    QuoteRoundTrip(v);
    QuoteRoundTrip(w);
  }

  // ------------------------------------------------------------ assignment lines

  function SkipSpaces(s: string): string {
    if s != "" && IsSpace(s[0]) then SkipSpaces(s[1..]) else s
  }

  /** How many leading characters belong to a name. */
  function NameLength(s: string): (n: nat)
    ensures n <= |s|
  {
    if s != "" && IsNameChar(s[0]) then 1 + NameLength(s[1..]) else 0
  }

  /** `([A-Za-z_][A-Za-z0-9_]*)\s*=` at the start of `s`. */
  function Assigned(s: string): Option<string> {
    var n := NameLength(s);
    var after := SkipSpaces(s[n..]);
    if n > 0 && IsNameStart(s[0]) && after != "" && after[0] == '=' then Some(s[..n]) else None
  }

  const EXPORT := "export"

  /** `^\s*(?:export\s+)?NAME\s*=`: the optional prefix is tried first. */
  function LineName(line: string): Option<string> {
    var s := SkipSpaces(line);
    if EXPORT <= s && |s| > 6 && IsSpace(s[6]) && Assigned(SkipSpaces(s[6..])).Some?
    then Assigned(SkipSpaces(s[6..]))
    else Assigned(s)
  }

  /** The text after the first equals sign. */
  function RawOf(line: string): string {
    if line == "" then "" else if line[0] == '=' then line[1..] else RawOf(line[1..])
  }

  function Rendered(name: string, value: string): string {
    name + "=" + QuoteEnv(value)
  }

  lemma {:induction false} NameLengthOf(name: string, rest: string)
    requires forall i :: 0 <= i < |name| ==> IsNameChar(name[i])
    requires rest != "" && !IsNameChar(rest[0])
    ensures NameLength(name + rest) == |name|
  {
    if name == "" {
      assert name + rest == rest;
    } else {
      NameLengthOf(name[1..], rest);
      assert (name + rest)[1..] == name[1..] + rest;
    }
  }

  lemma {:induction false} RawAfter(head: string, rest: string)
    requires forall i :: 0 <= i < |head| ==> head[i] != '='
    ensures RawOf(head + "=" + rest) == rest
  {
    var line := head + "=" + rest;
    if head == "" {
      assert line == "=" + rest;
    } else {
      RawAfter(head[1..], rest);
      assert line[1..] == head[1..] + "=" + rest;
    }
  }

  // ------------------------------------------------------------ the regular expression

  ghost predicate Blank(s: string) {
    forall i :: 0 <= i < |s| ==> IsSpace(s[i])
  }

  /** The optional group `(?:export\s+)?`. */
  ghost predicate ExportGroup(s: string) {
    s == "" || (|s| > 6 && s[..6] == EXPORT && Blank(s[6..]))
  }

  /** A way to read `line` as the expression's five parts and whatever follows. */
  ghost predicate Parts(line: string, ws: string, group: string, name: string, gap: string, rest: string) {
    && line == ws + group + (name + (gap + "=" + rest))
    && Blank(ws) && ExportGroup(group) && ValidName(name) && Blank(gap)
  }

  lemma {:induction false} SkipSplits(s: string) returns (ws: string)
    ensures s == ws + SkipSpaces(s) && Blank(ws)
    ensures SkipSpaces(s) != "" ==> !IsSpace(SkipSpaces(s)[0])
  {
    ws := "";
    if s != "" && IsSpace(s[0]) {
      ws := SkipSplits(s[1..]);
      ws := [s[0]] + ws;
    }
  }

  lemma {:induction false} SkipStops(ws: string, t: string)
    requires Blank(ws) && t != "" && !IsSpace(t[0])
    ensures SkipSpaces(ws + t) == t
  {
    if ws == "" {
      assert ws + t == t;
    } else {
      SkipStops(ws[1..], t);
      assert (ws + t)[1..] == ws[1..] + t;
    }
  }

  lemma {:induction false} NameCharsCounted(s: string)
    ensures forall i :: 0 <= i < NameLength(s) ==> IsNameChar(s[i])
    ensures NameLength(s) < |s| ==> !IsNameChar(s[NameLength(s)])
  {
    if s != "" && IsNameChar(s[0]) {
      NameCharsCounted(s[1..]);
    }
  }

  lemma GapIsNoName(gap: string, rest: string)
    requires Blank(gap)
    ensures var t := gap + "=" + rest; t != "" && !IsNameChar(t[0])
  {
  }

  lemma AssignedComplete(name: string, gap: string, rest: string)
    requires ValidName(name) && Blank(gap)
    ensures Assigned(name + (gap + "=" + rest)) == Some(name)
    ensures NameLength(name + (gap + "=" + rest)) == |name|
    ensures SkipSpaces(gap + "=" + rest) == "=" + rest
  {
    var tail := gap + "=" + rest;
    GapIsNoName(gap, rest);
    NameLengthOf(name, tail);
    GapSkipped(gap, rest);
    AssignedOf(name, tail, rest);
  }

  lemma GapSkipped(gap: string, rest: string)
    requires Blank(gap)
    ensures SkipSpaces(gap + "=" + rest) == "=" + rest
  {
    SkipStops(gap, "=" + rest);
    assert gap + ("=" + rest) == gap + "=" + rest;
  }

  lemma AssignedOf(name: string, tail: string, rest: string)
    requires ValidName(name) && NameLength(name + tail) == |name| && SkipSpaces(tail) == "=" + rest
    ensures Assigned(name + tail) == Some(name)
  {
    assert (name + tail)[|name|..] == tail;
    assert (name + tail)[..|name|] == name;
  }

  lemma AssignedSound(s: string) returns (gap: string, rest: string)
    requires Assigned(s).Some?
    ensures ValidName(Assigned(s).value) && Blank(gap)
    ensures s == Assigned(s).value + (gap + "=" + rest)
  {
    var n := NameLength(s);
    NameCharsCounted(s);
    gap := SkipSplits(s[n..]);
    rest := SkipSpaces(s[n..])[1..];
    assert s[n..] == gap + "=" + rest;
  }

  lemma CompleteWithoutExport(name: string, gap: string, rest: string)
    requires ValidName(name) && Blank(gap)
    ensures var x := name + (gap + "=" + rest);
            EXPORT <= x && |x| > 6 && IsSpace(x[6]) ==> Assigned(SkipSpaces(x[6..])).None?
  {
    var x := name + (gap + "=" + rest);
    AssignedComplete(name, gap, rest);
    NameCharsCounted(x);
    if EXPORT <= x && |x| > 6 && IsSpace(x[6]) {
      assert |name| == 6;
      assert x[6..] == gap + "=" + rest;
    }
  }

  lemma CompleteWithExport(blanks: string, name: string, gap: string, rest: string)
    requires ValidName(name) && Blank(gap) && Blank(blanks) && blanks != ""
    ensures var s := EXPORT + blanks + (name + (gap + "=" + rest));
            && EXPORT <= s && |s| > 6 && IsSpace(s[6])
            && Assigned(SkipSpaces(s[6..])) == Some(name)
  {
    var x := name + (gap + "=" + rest);
    var s := EXPORT + blanks + x;
    AssignedComplete(name, gap, rest);
    SkipStops(blanks, x);
    assert s[6..] == blanks + x;
  }

  /** The matcher accepts every reading the expression allows ... */
  lemma LineNameComplete(line: string, ws: string, group: string, name: string, gap: string, rest: string)
    requires Parts(line, ws, group, name, gap, rest)
    ensures LineName(line) == Some(name)
  {
    var x := name + (gap + "=" + rest);
    var s := group + x;
    assert line == ws + s;
    if group == "" {
      assert s == x;
      SkipStops(ws, x);
      AssignedComplete(name, gap, rest);
      CompleteWithoutExport(name, gap, rest);
    } else {
      SkipStops(ws, s);
      assert group == EXPORT + group[6..];
      CompleteWithExport(group[6..], name, gap, rest);
    }
  }

  lemma ExportSplits(s: string) returns (group: string)
    requires EXPORT <= s && |s| > 6 && IsSpace(s[6]) && Assigned(SkipSpaces(s[6..])).Some?
    ensures ExportGroup(group) && s == group + SkipSpaces(s[6..])
  {
    var blanks := SkipSplits(s[6..]);
    var x := SkipSpaces(s[6..]);
    NameIsNoSpace(x);
    group := EXPORT + blanks;
    assert s == EXPORT + s[6..];
    assert blanks != "";
    assert group[6..] == blanks;
  }

  lemma NameIsNoSpace(x: string)
    requires Assigned(x).Some?
    ensures x != "" && !IsSpace(x[0])
  {
  }

  /** ... and no other, so the name a line assigns is the one the expression captures. */
  lemma LineNameSound(line: string) returns (ws: string, group: string, gap: string, rest: string)
    requires LineName(line).Some?
    ensures Parts(line, ws, group, LineName(line).value, gap, rest)
  {
    ws := SkipSplits(line);
    var s := SkipSpaces(line);
    var x := s;
    group := "";
    if EXPORT <= s && |s| > 6 && IsSpace(s[6]) && Assigned(SkipSpaces(s[6..])).Some? {
      group := ExportSplits(s);
      x := SkipSpaces(s[6..]);
    }
    assert LineName(line) == Assigned(x) && s == group + x;
    gap, rest := AssignedSound(x);
    Regroup(ws, group, x);
  }

  lemma Regroup(a: string, b: string, c: string)
    ensures a + (b + c) == a + b + c
  {
  }

  /** A written line is read back: its name and its value. */
  lemma RenderedReads(name: string, value: string)
    requires ValidName(name)
    ensures LineName(Rendered(name, value)) == Some(name)
    ensures Unquote(RawOf(Rendered(name, value))) == value
  {
    var q := QuoteEnv(value);
    PlainParts(name, q);
    LineNameComplete(name + "=" + q, "", "", name, "", q);
    RawAfter(name, q);
    QuoteRoundTrip(value);
  }

  lemma PlainParts(name: string, q: string)
    requires ValidName(name)
    ensures Parts(name + "=" + q, "", "", name, "", q)
  {
    assert name + "=" + q == "" + "" + (name + ("" + "=" + q));
  }

  // ------------------------------------------------------------ reading a file

  /** Which name a line assigns, if any. */
  type Namer = string -> Option<string>

  /** The `seen` dictionary: where each name is assigned last. */
  function Seen(f: Namer, lines: seq<string>): map<string, nat> {
    if lines == [] then map[] else
      var n := |lines| - 1;
      var name := f(lines[n]);
      if name.Some? then Seen(f, lines[..n])[name.value := n] else Seen(f, lines[..n])
  }

  /** The line that decides each name when the last occurrence wins. */
  function Current(f: Namer, lines: seq<string>): map<string, string> {
    if lines == [] then map[] else
      var n := |lines| - 1;
      var name := f(lines[n]);
      if name.Some? then Current(f, lines[..n])[name.value := lines[n]] else Current(f, lines[..n])
  }

  /** What a reader of the file sees. */
  function Reads(lines: seq<string>): map<string, string> {
    map name | name in Current(LineName, lines) :: Unquote(RawOf(Current(LineName, lines)[name]))
  }

  lemma {:induction false} SeenIsCurrent(f: Namer, lines: seq<string>)
    ensures Seen(f, lines).Keys == Current(f, lines).Keys
    ensures forall name :: name in Seen(f, lines) ==>
              && Seen(f, lines)[name] < |lines|
              && f(lines[Seen(f, lines)[name]]) == Some(name)
              && Current(f, lines)[name] == lines[Seen(f, lines)[name]]
  {
    if lines != [] {
      SeenIsCurrent(f, lines[..|lines| - 1]);
    }
  }

  /** No later line assigns the name. */
  lemma {:induction false} SeenIsLast(f: Namer, lines: seq<string>, name: string, j: nat)
    requires name in Seen(f, lines) && Seen(f, lines)[name] < j < |lines|
    ensures f(lines[j]) != Some(name)
  {
    var n := |lines| - 1;
    if j < n {
      SeenIsLast(f, lines[..n], name, j);
    }
  }

  /** Replacing the deciding line of a name by another line of that name changes only that name. */
  lemma {:induction false} ReplaceLine(f: Namer, lines: seq<string>, name: string, line: string, i: nat)
    requires name in Seen(f, lines) && Seen(f, lines)[name] == i < |lines|
    requires f(line) == Some(name) == f(lines[i])
    ensures Seen(f, lines[i := line]) == Seen(f, lines)
    ensures Current(f, lines[i := line]) == Current(f, lines)[name := line]
  {
    var n := |lines| - 1;
    var init, changed := lines[..n], lines[i := line];
    if i == n {
      assert changed[..n] == init;
    } else {
      var last := f(lines[n]);
      assert last != Some(name);
      ReplaceLine(f, init, name, line, i);
      assert changed[..n] == init[i := line] && changed[n] == lines[n];
      if last.Some? {
        assert Current(f, init)[name := line][last.value := lines[n]] == Current(f, init)[last.value := lines[n]][name := line];
      }
    }
  }

  lemma AppendLine(f: Namer, lines: seq<string>, name: string, line: string)
    requires f(line) == Some(name)
    ensures Seen(f, lines + [line]) == Seen(f, lines)[name := |lines|]
    ensures Current(f, lines + [line]) == Current(f, lines)[name := line]
  {
    assert (lines + [line])[..|lines|] == lines;
  }

  // ------------------------------------------------------------ merging lines

  /** Names and values in the order they are given. */
  type Values = seq<(string, string)>

  /** Names and the lines written for them. */
  type Entries = seq<(string, string)>

  datatype Merged = Merged(lines: seq<string>, added: seq<string>, updated: seq<string>)

  ghost predicate Indexes(seen: map<string, nat>, n: nat) {
    forall name :: name in seen ==> seen[name] < n
  }

  function Put(seen: map<string, nat>, m: Merged, name: string, line: string): Merged
    requires name in seen ==> seen[name] < |m.lines|
  {
    if name !in seen then Merged(m.lines + [line], m.added + [name], m.updated)
    else if m.lines[seen[name]] == line then m
    else Merged(m.lines[seen[name] := line], m.added, m.updated + [name])
  }

  /** The entries written one after another over the lines of an existing file. */
  function PutAll(seen: map<string, nat>, lines: seq<string>, entries: Entries): (m: Merged)
    requires Indexes(seen, |lines|)
    ensures |m.lines| == |lines| + |m.added|
  {
    if entries == [] then Merged(lines, [], []) else
      var n := |entries| - 1;
      Put(seen, PutAll(seen, lines, entries[..n]), entries[n].0, entries[n].1)
  }

  function MapOf(pairs: seq<(string, string)>): map<string, string> {
    if pairs == [] then map[] else
      var n := |pairs| - 1;
      MapOf(pairs[..n])[pairs[n].0 := pairs[n].1]
  }

  ghost predicate Named(f: Namer, entries: Entries) {
    forall i :: 0 <= i < |entries| ==> f(entries[i].1) == Some(entries[i].0)
  }

  /** The positions found before the loop are still right. */
  ghost predicate StillAt(f: Namer, seen: map<string, nat>, lines: seq<string>) {
    forall name :: name in seen ==> name in Seen(f, lines) && Seen(f, lines)[name] == seen[name] < |lines|
  }

  lemma PutUpdates(f: Namer, seen: map<string, nat>, m: Merged, name: string, line: string)
    requires StillAt(f, seen, m.lines) && f(line) == Some(name)
    ensures StillAt(f, seen, Put(seen, m, name, line).lines)
    ensures Current(f, Put(seen, m, name, line).lines) == Current(f, m.lines)[name := line]
  {
    SeenIsCurrent(f, m.lines);
    if name !in seen {
      AppendLine(f, m.lines, name, line);
    } else if m.lines[seen[name]] != line {
      ReplaceLine(f, m.lines, name, line, seen[name]);
    } else {
      assert Current(f, m.lines)[name := line] == Current(f, m.lines);
    }
  }

  /** The deciding lines are updated like a map. */
  lemma {:induction false} PutAllUpdates(f: Namer, seen: map<string, nat>, lines: seq<string>, entries: Entries)
    requires StillAt(f, seen, lines) && Named(f, entries)
    ensures StillAt(f, seen, PutAll(seen, lines, entries).lines)
    ensures Current(f, PutAll(seen, lines, entries).lines) == Current(f, lines) + MapOf(entries)
  {
    var current := Current(f, lines);
    if entries == [] {
      assert current + map[] == current;
    } else {
      var n := |entries| - 1;
      var name, line := entries[n].0, entries[n].1;
      PutAllUpdates(f, seen, lines, entries[..n]);
      var m := PutAll(seen, lines, entries[..n]);
      assert f(line) == Some(name);
      PutUpdates(f, seen, m, name, line);
      PlusUpdate(current, MapOf(entries[..n]), name, line);
    }
  }

  lemma PlusUpdate(a: map<string, string>, b: map<string, string>, name: string, line: string)
    ensures a + b[name := line] == (a + b)[name := line]
  {
  }

  /** Every value is already what the file says. */
  ghost predicate Settled(f: Namer, lines: seq<string>, entries: Entries) {
    forall i :: 0 <= i < |entries| ==>
      entries[i].0 in Current(f, lines) && Current(f, lines)[entries[i].0] == entries[i].1
  }

  lemma {:induction false} SettledChangesNothing(f: Namer, lines: seq<string>, entries: Entries)
    requires Indexes(Seen(f, lines), |lines|) && Settled(f, lines, entries)
    ensures PutAll(Seen(f, lines), lines, entries) == Merged(lines, [], [])
  {
    if entries != [] {
      SettledChangesNothing(f, lines, entries[..|entries| - 1]);
      SeenIsCurrent(f, lines);
    }
  }

  ghost predicate DistinctNames(entries: Entries) {
    forall i, j :: 0 <= i < j < |entries| ==> entries[i].0 != entries[j].0
  }

  lemma {:induction false} MapOfHas(entries: Entries, i: nat)
    requires DistinctNames(entries) && i < |entries|
    ensures entries[i].0 in MapOf(entries)
    ensures MapOf(entries)[entries[i].0] == entries[i].1
  {
    if i < |entries| - 1 {
      MapOfHas(entries[..|entries| - 1], i);
    }
  }

  /** A line the merge did not need to touch is where it was. */
  lemma {:induction false} UnrelatedLinesStay(seen: map<string, nat>, lines: seq<string>, entries: Entries, i: nat)
    requires Indexes(seen, |lines|) && i < |lines|
    ensures var m := PutAll(seen, lines, entries);
            m.lines[i] == lines[i] || exists name :: name in m.updated && name in seen && seen[name] == i
  {
    if entries != [] {
      UnrelatedLinesStay(seen, lines, entries[..|entries| - 1], i);
      var before := PutAll(seen, lines, entries[..|entries| - 1]);
      var m := PutAll(seen, lines, entries);
      var name := entries[|entries| - 1].0;
      assert m.updated == before.updated || m.updated == before.updated + [name];
      if before.lines[i] != lines[i] {
        var other :| other in before.updated && other in seen && seen[other] == i;
        assert other in m.updated;
      } else if m.lines[i] != lines[i] {
        assert m.updated[|m.updated| - 1] == name;
      }
    }
  }

  /** Added are exactly the names the file did not assign, updated only names it did. */
  lemma {:induction false} ReportIsRight(seen: map<string, nat>, lines: seq<string>, entries: Entries, name: string)
    requires Indexes(seen, |lines|)
    ensures var m := PutAll(seen, lines, entries);
            && (name in m.added <==> name !in seen && exists i :: 0 <= i < |entries| && entries[i].0 == name)
            && (name in m.updated ==> name in seen && exists i :: 0 <= i < |entries| && entries[i].0 == name)
  {
    if entries != [] {
      var n := |entries| - 1;
      ReportIsRight(seen, lines, entries[..n], name);
      var before := PutAll(seen, lines, entries[..n]);
      var m := PutAll(seen, lines, entries);
      assert m.added == before.added || m.added == before.added + [entries[n].0];
      assert m.updated == before.updated || m.updated == before.updated + [entries[n].0];
      assert (exists i :: 0 <= i < |entries| && entries[i].0 == name)
        <==> ((exists i :: 0 <= i < n && entries[..n][i].0 == name) || entries[n].0 == name);
    }
  }

  /** The names of the entries, in order. */
  ghost function NamesOf(entries: Entries): (names: seq<string>)
    ensures |names| == |entries| && forall i :: 0 <= i < |entries| ==> names[i] == entries[i].0
  {
    seq(|entries|, i requires 0 <= i < |entries| => entries[i].0)
  }

  ghost function LinesFor(entries: Entries): (lines: seq<string>)
    ensures |lines| == |entries| && forall i :: 0 <= i < |entries| ==> lines[i] == entries[i].1
  {
    seq(|entries|, i requires 0 <= i < |entries| => entries[i].1)
  }

  lemma PicksLonger(picked: seq<nat>, whole: seq<string>, longer: seq<string>, part: seq<string>)
    requires Picks(picked, whole, part) && whole <= longer
    ensures Picks(picked, longer, part)
  {
  }

  lemma PicksLast(picked: seq<nat>, whole: seq<string>, x: string, part: seq<string>)
    requires Picks(picked, whole, part)
    ensures Picks(picked + [|whole|], whole + [x], part + [x])
  {
  }

  /** New names are added after the existing lines, and both reports are made, in the order the values are given. */
  lemma {:induction false} ReportsInOrder(seen: map<string, nat>, lines: seq<string>, entries: Entries)
    returns (added: seq<nat>, updated: seq<nat>)
    requires Indexes(seen, |lines|)
    ensures var m := PutAll(seen, lines, entries);
            && Picks(added, NamesOf(entries), m.added) && Picks(added, LinesFor(entries), m.lines[|lines|..])
            && Picks(updated, NamesOf(entries), m.updated)
  {
    added, updated := [], [];
    if entries != [] {
      var n := |entries| - 1;
      var before, m := PutAll(seen, lines, entries[..n]), PutAll(seen, lines, entries);
      added, updated := ReportsInOrder(seen, lines, entries[..n]);
      var names, rendered := NamesOf(entries[..n]), LinesFor(entries[..n]);
      var (name, line) := entries[n];
      assert NamesOf(entries) == names + [name] && LinesFor(entries) == rendered + [line];
      if name !in seen {
        PicksLast(added, names, name, before.added);
        PicksLast(added, rendered, line, before.lines[|lines|..]);
        assert m.lines[|lines|..] == before.lines[|lines|..] + [line];
        PicksLonger(updated, names, NamesOf(entries), before.updated);
        added := added + [n];
      } else {
        assert m.lines[|lines|..] == before.lines[|lines|..];
        PicksLonger(added, names, NamesOf(entries), before.added);
        PicksLonger(added, rendered, LinesFor(entries), before.lines[|lines|..]);
        PicksLast(updated, names, name, before.updated);
        PicksLonger(updated, names, NamesOf(entries), before.updated);
        if before.lines[seen[name]] != line {
          updated := updated + [n];
        }
      }
    }
  }

  ghost predicate OneNameEach(seen: map<string, nat>) {
    forall a, b :: a in seen && b in seen && seen[a] == seen[b] ==> a == b
  }

  /** Updated are exactly the names whose deciding line was another one than is written. */
  lemma {:induction false} PutAllReportsUpdates(seen: map<string, nat>, lines: seq<string>, entries: Entries, i: nat)
    requires Indexes(seen, |lines|) && OneNameEach(seen) && DistinctNames(entries) && i < |entries|
    ensures var (name, line) := entries[i];
            name in PutAll(seen, lines, entries).updated <==> name in seen && lines[seen[name]] != line
  {
    var n := |entries| - 1;
    var before, m := PutAll(seen, lines, entries[..n]), PutAll(seen, lines, entries);
    assert m.updated == before.updated || m.updated == before.updated + [entries[n].0];
    if i < n {
      PutAllReportsUpdates(seen, lines, entries[..n], i);
    } else {
      var name := entries[n].0;
      ReportIsRight(seen, lines, entries[..n], name);
      if name in seen {
        UnrelatedLinesStay(seen, lines, entries[..n], seen[name]);
      }
    }
  }

  // ------------------------------------------------------------ text

  /** `splitlines`: a carriage return and a line feed are one break, and a final break opens no line. */
  function SplitLines(text: string): seq<string>
    decreases |text|
  {
    if text == "" then [] else
      var k := BreakAt(text);
      if k == |text| then [text]
      else if text[k] == '\r' && k + 1 < |text| && text[k + 1] == '\n' then [text[..k]] + SplitLines(text[k + 2..])
      else [text[..k]] + SplitLines(text[k + 1..])
  }

  function BreakAt(text: string): (k: nat)
    ensures k <= |text| && OneLine(text[..k])
    ensures k < |text| ==> IsBreak(text[k])
  {
    if text == "" || IsBreak(text[0]) then 0 else 1 + BreakAt(text[1..])
  }

  ghost predicate OneLineEach(lines: seq<string>) {
    forall i :: 0 <= i < |lines| ==> OneLine(lines[i])
  }

  lemma {:induction false} SplitLinesHaveNoBreaks(text: string)
    ensures OneLineEach(SplitLines(text))
    decreases |text|
  {
    if text != "" {
      var k := BreakAt(text);
      if k == |text| {
        assert text[..k] == text;
      } else if text[k] == '\r' && k + 1 < |text| && text[k + 1] == '\n' {
        SplitLinesHaveNoBreaks(text[k + 2..]);
      } else {
        SplitLinesHaveNoBreaks(text[k + 1..]);
      }
    }
  }

  /** A break between lines: a carriage return with its line feed, or one break character. */
  ghost predicate IsLineBreak(b: string) {
    b == "\r\n" || (|b| == 1 && IsBreak(b[0]))
  }

  /** The text that has these lines, each followed by its break. */
  ghost function Woven(lines: seq<string>, breaks: seq<string>): string
    requires |breaks| == |lines|
  {
    if lines == [] then "" else lines[0] + breaks[0] + Woven(lines[1..], breaks[1..])
  }

  /** The layout of a text: only a last line that is not empty may lack its break, and no carriage return is parted from its line feed. */
  ghost predicate Layout(lines: seq<string>, breaks: seq<string>) {
    && |breaks| == |lines| && OneLineEach(lines)
    && (forall i :: 0 <= i < |lines| ==> IsLineBreak(breaks[i]) || (i == |lines| - 1 && breaks[i] == "" && lines[i] != ""))
    && (forall i :: 0 <= i < |lines| - 1 && breaks[i] == "\r" ==> !(lines[i + 1] == "" && breaks[i + 1] == "\n"))
  }

  lemma LayoutTail(lines: seq<string>, breaks: seq<string>)
    requires Layout(lines, breaks) && lines != []
    ensures Layout(lines[1..], breaks[1..])
  {
    var ls, bs := lines[1..], breaks[1..];
    forall i | 0 <= i < |ls| - 1 && bs[i] == "\r"
      ensures !(ls[i + 1] == "" && bs[i + 1] == "\n")
    {
      assert breaks[i + 1] == "\r" && lines[i + 1 + 1] == ls[i + 1] && breaks[i + 1 + 1] == bs[i + 1];
    }
  }

  /** A text that is laid out starts with a line feed only if its first line is empty and ends with just that. */
  lemma StartsWithFeed(lines: seq<string>, breaks: seq<string>)
    requires Layout(lines, breaks)
    ensures var text := Woven(lines, breaks);
            text != "" && text[0] == '\n' ==> lines != [] && lines[0] == "" && breaks[0] == "\n"
  {
    if lines != [] && lines[0] != "" {
      assert !IsBreak(lines[0][0]);
    }
  }

  lemma {:induction false} BreakAtTail(line: string, tail: string)
    requires OneLine(line) && (tail == "" || IsBreak(tail[0]))
    ensures BreakAt(line + tail) == |line|
  {
    if line == "" {
      assert line + tail == tail;
    } else {
      assert (line + tail)[1..] == line[1..] + tail;
      BreakAtTail(line[1..], tail);
    }
  }

  /** Splitting gives back the lines of every layout ... */
  lemma {:induction false} SplitWoven(lines: seq<string>, breaks: seq<string>)
    requires Layout(lines, breaks)
    ensures SplitLines(Woven(lines, breaks)) == lines
  {
    if lines != [] {
      var line, rest := lines[0], Woven(lines[1..], breaks[1..]);
      LayoutTail(lines, breaks);
      SplitWoven(lines[1..], breaks[1..]);
      StartsWithFeed(lines[1..], breaks[1..]);
      SplitFirst(line, breaks[0], rest);
      assert Woven(lines, breaks) == line + breaks[0] + rest;
      if breaks[0] == "" {
        assert lines[1..] == [] && lines == [line];
      }
    }
  }

  lemma SplitFirst(line: string, b: string, rest: string)
    requires OneLine(line)
    requires if b == "" then line != "" && rest == "" else IsLineBreak(b) && !(b == "\r" && rest != "" && rest[0] == '\n')
    ensures SplitLines(line + b + rest) == [line] + SplitLines(rest)
  {
    var text, k := line + b + rest, |line|;
    assert text == line + (b + rest);
    BreakAtTail(line, b + rest);
    assert text[..k] == line;
    if b == "\r\n" {
      assert text[k] == '\r' && text[k + 1] == '\n' && text[k + 2..] == rest;
    } else if b != "" {
      assert text[k] == b[0] && text[k + 1..] == rest;
      assert k + 1 < |text| ==> text[k + 1] == rest[0];
    }
  }

  /** Where the first line of a text ends, its break included. */
  function LineEnd(text: string): (n: nat)
    ensures BreakAt(text) <= n <= |text|
  {
    var k := BreakAt(text);
    if k == |text| then k else if text[k] == '\r' && k + 1 < |text| && text[k + 1] == '\n' then k + 2 else k + 1
  }

  lemma FirstLine(text: string)
    requires text != ""
    ensures var k, n := BreakAt(text), LineEnd(text);
            && n > 0 && SplitLines(text) == [text[..k]] + SplitLines(text[n..])
            && (IsLineBreak(text[k..n]) || (text[k..n] == "" && text[..k] != "" && text[n..] == ""))
            && (text[k..n] == "\r" ==> text[n..] == "" || text[n..][0] != '\n')
  {
    var k, n := BreakAt(text), LineEnd(text);
    if k == |text| {
      assert text[..k] == text && text[n..] == "" && SplitLines(text[n..]) == [];
    } else if n == k + 2 {
      assert text[k..n] == "\r\n";
    } else {
      assert text[k..n] == [text[k]];
    }
  }

  /** ... and every text has one, so the lines of a file are all of it but its breaks. */
  lemma {:induction false} TextIsWoven(text: string) returns (lines: seq<string>, breaks: seq<string>)
    ensures lines == SplitLines(text) && Layout(lines, breaks) && Woven(lines, breaks) == text
    decreases |text|
  {
    if text == "" {
      return [], [];
    }
    var k, n := BreakAt(text), LineEnd(text);
    FirstLine(text);
    var after, rest := TextIsWoven(text[n..]);
    StartsWithLine(after, rest);
    LayoutCons(text[..k], after, text[k..n], rest, text[n..]);
    WovenCons(text[..k], after, text[k..n], rest);
    lines, breaks := [text[..k]] + after, [text[k..n]] + rest;
    SplitAtLine(text, k, n);
  }

  lemma SplitAtLine(text: string, k: nat, n: nat)
    requires k <= n <= |text|
    ensures text[..k] + text[k..n] + text[n..] == text
  {
  }

  lemma WovenCons(line: string, lines: seq<string>, b: string, breaks: seq<string>)
    requires |breaks| == |lines|
    ensures Woven([line] + lines, [b] + breaks) == line + b + Woven(lines, breaks)
  {
    assert ([line] + lines)[1..] == lines && ([b] + breaks)[1..] == breaks;
  }

  /** The text of an empty first line followed by a line feed starts with that line feed. */
  lemma StartsWithLine(lines: seq<string>, breaks: seq<string>)
    requires |breaks| == |lines|
    ensures lines != [] && lines[0] == "" && breaks[0] == "\n" ==> Woven(lines, breaks) != "" && Woven(lines, breaks)[0] == '\n'
  {
  }

  lemma LayoutCons(line: string, lines: seq<string>, b: string, breaks: seq<string>, rest: string)
    requires OneLine(line) && Layout(lines, breaks)
    requires IsLineBreak(b) || (b == "" && line != "" && lines == [])
    requires b == "\r" ==> rest == "" || rest[0] != '\n'
    requires lines != [] && lines[0] == "" && breaks[0] == "\n" ==> rest != "" && rest[0] == '\n'
    ensures Layout([line] + lines, [b] + breaks)
  {
    var ls, bs := [line] + lines, [b] + breaks;
    forall i | 0 <= i < |ls|
      ensures OneLine(ls[i]) && (IsLineBreak(bs[i]) || (i == |ls| - 1 && bs[i] == "" && ls[i] != ""))
    {
      if i > 0 {
        assert ls[i] == lines[i - 1] && bs[i] == breaks[i - 1];
      }
    }
    forall i | 0 <= i < |ls| - 1 && bs[i] == "\r"
      ensures !(ls[i + 1] == "" && bs[i + 1] == "\n")
    {
      if i > 0 {
        assert lines[i - 1 + 1] == ls[i + 1] && breaks[i - 1 + 1] == bs[i + 1] && breaks[i - 1] == bs[i];
      }
    }
  }

  function Join(lines: seq<string>): string {
    if lines == [] then "" else if |lines| == 1 then lines[0]
    else Join(lines[..|lines| - 1]) + "\n" + lines[|lines| - 1]
  }

  /** `rstrip("\n")`. */
  function StripNewlines(s: string): string {
    if s != "" && s[|s| - 1] == '\n' then StripNewlines(s[..|s| - 1]) else s
  }

  function Render(lines: seq<string>): string {
    var text := StripNewlines(Join(lines));
    if text == "" then "" else text + "\n"
  }

  /** The lines without the blank ones at the end. */
  function Trimmed(lines: seq<string>): seq<string> {
    if lines != [] && lines[|lines| - 1] == "" then Trimmed(lines[..|lines| - 1]) else lines
  }

  function Terminated(lines: seq<string>): string {
    if lines == [] then "" else lines[0] + "\n" + Terminated(lines[1..])
  }

  lemma {:induction false} StripIsTrim(lines: seq<string>)
    requires OneLineEach(lines)
    ensures StripNewlines(Join(lines)) == Join(Trimmed(lines))
  {
    if lines != [] {
      var init, last := lines[..|lines| - 1], lines[|lines| - 1];
      if last == "" {
        StripIsTrim(init);
        if init != [] {
          assert Join(lines) == Join(init) + "\n";
          assert (Join(init) + "\n")[..|Join(init)|] == Join(init);
        }
      } else {
        assert !IsBreak(last[|last| - 1]);
        assert Join(lines)[|Join(lines)| - 1] == last[|last| - 1];
      }
    }
  }

  lemma {:induction false} TerminatedSnoc(lines: seq<string>, last: string)
    ensures Terminated(lines + [last]) == Terminated(lines) + last + "\n"
  {
    if lines == [] {
      assert lines + [last] == [last];
      assert [last][1..] == [];
    } else {
      TerminatedSnoc(lines[1..], last);
      assert (lines + [last])[1..] == lines[1..] + [last];
    }
  }

  lemma {:induction false} JoinIsTerminated(lines: seq<string>)
    requires lines != []
    ensures Join(lines) + "\n" == Terminated(lines)
  {
    var init, last := lines[..|lines| - 1], lines[|lines| - 1];
    assert lines == init + [last];
    TerminatedSnoc(init, last);
    if init != [] {
      JoinIsTerminated(init);
    }
  }

  lemma {:induction false} TrimmedShape(lines: seq<string>)
    ensures Trimmed(lines) <= lines
    ensures Trimmed(lines) != [] ==> Trimmed(lines)[|Trimmed(lines)| - 1] != ""
    ensures Trimmed(Trimmed(lines)) == Trimmed(lines)
    ensures forall i :: |Trimmed(lines)| <= i < |lines| ==> lines[i] == ""
  {
    if lines != [] && lines[|lines| - 1] == "" {
      TrimmedShape(lines[..|lines| - 1]);
    }
  }

  /** The written text is the trimmed lines, each ended by a newline. */
  lemma RenderIsTerminated(lines: seq<string>)
    requires OneLineEach(lines)
    ensures Render(lines) == Terminated(Trimmed(lines))
  {
    StripIsTrim(lines);
    TrimmedShape(lines);
    var t := Trimmed(lines);
    if t != [] {
      JoinIsTerminated(t);
      assert Join(t) != "";
    }
  }

  lemma {:induction false} BreakAtEnd(line: string, rest: string)
    requires OneLine(line)
    ensures BreakAt(line + "\n" + rest) == |line|
  {
    var text := line + "\n" + rest;
    if line == "" {
      assert text[0] == '\n';
    } else {
      assert text[1..] == line[1..] + "\n" + rest;
      BreakAtEnd(line[1..], rest);
    }
  }

  /** What is written is read back line by line. */
  lemma {:induction false} SplitTerminated(lines: seq<string>)
    requires OneLineEach(lines)
    ensures SplitLines(Terminated(lines)) == lines
  {
    if lines != [] {
      var line, rest := lines[0], Terminated(lines[1..]);
      var text := line + "\n" + rest;
      BreakAtEnd(line, rest);
      SplitTerminated(lines[1..]);
      assert text[..|line|] == line && text[|line| + 1..] == rest;
    }
  }

  // ------------------------------------------------------------ the merge

  function EntriesOf(values: Values): (entries: Entries)
    ensures |entries| == |values|
    ensures forall i :: 0 <= i < |values| ==> entries[i] == (values[i].0, Rendered(values[i].0, values[i].1))
  {
    seq(|values|, i requires 0 <= i < |values| => (values[i].0, Rendered(values[i].0, values[i].1)))
  }

  function MergeLines(lines: seq<string>, values: Values): Merged {
    SeenIsCurrent(LineName, lines);
    PutAll(Seen(LineName, lines), lines, EntriesOf(values))
  }

  function LinesOf(file: Option<string>): seq<string> {
    if file.Some? then SplitLines(file.value) else []
  }

  /** The text to write for a file, which may not exist yet. */
  function MergeText(file: Option<string>, values: Values): string {
    Render(MergeLines(LinesOf(file), values).lines)
  }

  /** The first loop: the last line that assigns each name. */
  method FindAssignments(existing: seq<string>) returns (seen: map<string, nat>)
    ensures seen == Seen(LineName, existing)
    ensures forall name :: name in seen ==>
              && seen[name] < |existing| && LineName(existing[seen[name]]) == Some(name)
              && forall j :: seen[name] < j < |existing| ==> LineName(existing[j]) != Some(name)
  {
    seen := map[];
    for index := 0 to |existing|
      invariant seen == Seen(LineName, existing[..index])
    {
      assert existing[..index + 1][..index] == existing[..index];
      var name := LineName(existing[index]);
      if name.Some? {
        seen := seen[name.value := index];
      }
    }
    assert existing[..|existing|] == existing;
    SeenIsCurrent(LineName, existing);
    forall name, j | name in seen && seen[name] < j < |existing|
      ensures LineName(existing[j]) != Some(name)
    {
      SeenIsLast(LineName, existing, name, j);
    }
  }

  lemma PutNext(seen: map<string, nat>, lines: seq<string>, entries: Entries, i: nat)
    requires Indexes(seen, |lines|) && i < |entries|
    ensures PutAll(seen, lines, entries[..i + 1]) == Put(seen, PutAll(seen, lines, entries[..i]), entries[i].0, entries[i].1)
  {
    assert entries[..i + 1][..i] == entries[..i];
  }

  /** `merge_env_file`. */
  method MergeEnvFile(file: Option<string>, values: Values)
    returns (text: string, added: seq<string>, updated: seq<string>)
    ensures text == MergeText(file, values)
    ensures added == MergeLines(LinesOf(file), values).added
    ensures updated == MergeLines(LinesOf(file), values).updated
  {
    var existing := if file.Some? then SplitLines(file.value) else [];
    var seen := FindAssignments(existing);
    var lines := existing;
    added, updated := [], [];
    ghost var entries := EntriesOf(values);
    for i := 0 to |values|
      invariant Merged(lines, added, updated) == PutAll(seen, existing, entries[..i])
    {
      var (name, value) := values[i];
      var rendered := Rendered(name, value);
      PutNext(seen, existing, entries, i);
      if name in seen {
        if lines[seen[name]] != rendered {
          lines := lines[seen[name] := rendered];
          updated := updated + [name];
        }
      } else {
        added := added + [name];
        lines := lines + [rendered];
      }
    }
    assert entries[..|values|] == entries;
    text := Render(lines);
  }

  /** What a setup run may be given: distinct valid names, values without line breaks. */
  ghost predicate WellFormed(values: Values) {
    && DistinctNames(values)
    && forall i :: 0 <= i < |values| ==> ValidName(values[i].0) && OneLine(values[i].1)
  }

  lemma {:induction false} EscapeKeepsOneLine(v: string)
    requires OneLine(v)
    ensures OneLine(EscapeEach(v))
  {
    if v != "" {
      EscapeKeepsOneLine(v[1..]);
      assert !IsBreak(v[0]) && !IsBreak('\\');
    }
  }

  lemma OneLineConcat(a: string, b: string)
    requires OneLine(a) && OneLine(b)
    ensures OneLine(a + b)
  {
  }

  lemma QuoteKeepsOneLine(value: string)
    requires OneLine(value)
    ensures OneLine(QuoteEnv(value))
  {
    SequentialIsPerCharacter(value);
    EscapeKeepsOneLine(value);
    OneLineConcat("\"", Escaped(value));
    OneLineConcat("\"" + Escaped(value), "\"");
  }

  lemma RenderedIsOneLine(name: string, value: string)
    requires ValidName(name) && OneLine(value)
    ensures OneLine(Rendered(name, value))
  {
    QuoteKeepsOneLine(value);
    assert OneLine(name) && OneLine("=");
    OneLineConcat(name, "=");
    OneLineConcat(name + "=", QuoteEnv(value));
  }

  lemma {:induction false} PutAllOneLine(seen: map<string, nat>, lines: seq<string>, entries: Entries)
    requires Indexes(seen, |lines|) && OneLineEach(lines)
    requires forall i :: 0 <= i < |entries| ==> OneLine(entries[i].1)
    ensures OneLineEach(PutAll(seen, lines, entries).lines)
  {
    if entries != [] {
      PutAllOneLine(seen, lines, entries[..|entries| - 1]);
    }
  }

  lemma {:induction false} TrimKeepsCurrent(f: Namer, lines: seq<string>)
    requires f("") == None
    ensures Current(f, Trimmed(lines)) == Current(f, lines)
  {
    if lines != [] && lines[|lines| - 1] == "" {
      TrimKeepsCurrent(f, lines[..|lines| - 1]);
    }
  }

  lemma MergedIsOneLine(lines: seq<string>, values: Values)
    requires OneLineEach(lines) && WellFormed(values)
    ensures OneLineEach(MergeLines(lines, values).lines)
  {
    SeenIsCurrent(LineName, lines);
    forall i | 0 <= i < |values|
      ensures OneLine(EntriesOf(values)[i].1)
    {
      RenderedIsOneLine(values[i].0, values[i].1);
    }
    PutAllOneLine(Seen(LineName, lines), lines, EntriesOf(values));
  }

  /** Writing lines and reading the file again loses only blank lines at the end. */
  lemma RenderReadBack(lines: seq<string>)
    requires OneLineEach(lines)
    ensures SplitLines(Render(lines)) == Trimmed(lines)
    ensures Render(Trimmed(lines)) == Render(lines)
  {
    RenderIsTerminated(lines);
    TrimmedShape(lines);
    SplitTerminated(Trimmed(lines));
    RenderIsTerminated(Trimmed(lines));
  }

  lemma MergeUpdatesCurrent(lines: seq<string>, values: Values)
    requires WellFormed(values)
    ensures Current(LineName, MergeLines(lines, values).lines) == Current(LineName, lines) + MapOf(EntriesOf(values))
  {
    SeenIsCurrent(LineName, lines);
    forall i | 0 <= i < |values|
      ensures LineName(EntriesOf(values)[i].1) == Some(EntriesOf(values)[i].0)
    {
      RenderedReads(values[i].0, values[i].1);
    }
    PutAllUpdates(LineName, Seen(LineName, lines), lines, EntriesOf(values));
  }

  lemma {:induction false} EntriesRead(values: Values)
    requires WellFormed(values)
    ensures MapOf(EntriesOf(values)).Keys == MapOf(values).Keys
    ensures forall name :: name in MapOf(values) ==> Unquote(RawOf(MapOf(EntriesOf(values))[name])) == MapOf(values)[name]
  {
    if values != [] {
      var n := |values| - 1;
      EntriesRead(values[..n]);
      assert EntriesOf(values)[..n] == EntriesOf(values[..n]);
      RenderedReads(values[n].0, values[n].1);
    }
  }

  lemma ReadsUpdate(before: seq<string>, after: seq<string>, values: Values)
    requires WellFormed(values)
    requires Current(LineName, after) == Current(LineName, before) + MapOf(EntriesOf(values))
    ensures Reads(after) == Reads(before) + MapOf(values)
  {
    EntriesRead(values);
    var was, entries, wanted := Current(LineName, before), MapOf(EntriesOf(values)), MapOf(values);
    var now := Current(LineName, after);
    assert Reads(after).Keys == (Reads(before) + wanted).Keys;
    forall name | name in now
      ensures Reads(after)[name] == (Reads(before) + wanted)[name]
    {
      if name in entries {
        assert now[name] == entries[name];
      } else {
        assert now[name] == was[name];
      }
    }
  }

  /** For a reader of the file, a merge is a map update. */
  lemma MergeRefinesUpdate(file: Option<string>, values: Values)
    requires WellFormed(values)
    ensures Reads(SplitLines(MergeText(file, values))) == Reads(LinesOf(file)) + MapOf(values)
  {
    var lines := LinesOf(file);
    LinesAreOneLine(file);
    var out := MergeLines(lines, values).lines;
    MergedIsOneLine(lines, values);
    RenderReadBack(out);
    TrimKeepsCurrent(LineName, out);
    MergeUpdatesCurrent(lines, values);
    ReadsUpdate(lines, Trimmed(out), values);
  }

  lemma LinesAreOneLine(file: Option<string>)
    ensures OneLineEach(LinesOf(file))
  {
    if file.Some? {
      SplitLinesHaveNoBreaks(file.value);
    }
  }

  lemma {:induction false} NamesAreValid(lines: seq<string>)
    ensures forall name :: name in Current(LineName, lines) ==> ValidName(name)
  {
    if lines != [] {
      var n := |lines| - 1;
      NamesAreValid(lines[..n]);
      if LineName(lines[n]).Some? {
        var ws, group, gap, rest := LineNameSound(lines[n]);
      }
    }
  }

  lemma {:induction false} DecodeKeepsOneLine(s: string)
    requires OneLine(s)
    ensures OneLine(Decode(s))
    decreases |s|
  {
    if s != "" {
      DecodeKeepsOneLine(if s[0] == '\\' && |s| >= 2 then s[2..] else s[1..]);
    }
  }

  lemma {:induction false} RawKeepsOneLine(line: string)
    requires OneLine(line)
    ensures OneLine(RawOf(line)) && OneLine(Unquote(RawOf(line)))
  {
    var raw := RawOf(line);
    if line != "" && line[0] != '=' {
      RawKeepsOneLine(line[1..]);
    }
    assert OneLine(raw);
    if |raw| >= 2 {
      DecodeKeepsOneLine(raw[1..|raw| - 1]);
    }
  }

  /** A name or value outside the precondition really is lost: every file reads as valid names and one-line values. */
  lemma ReadsAreWellFormed(text: string, name: string)
    requires name in Reads(SplitLines(text))
    ensures ValidName(name) && OneLine(Reads(SplitLines(text))[name])
  {
    var lines := SplitLines(text);
    NamesAreValid(lines);
    SplitLinesHaveNoBreaks(text);
    SeenIsCurrent(LineName, lines);
    RawKeepsOneLine(Current(LineName, lines)[name]);
  }

  /** Merging a dictionary is map update for a reader exactly when its names are valid and its values have no line break. */
  lemma MergeRefinesExactly(file: Option<string>, values: Values)
    requires DistinctNames(values)
    ensures Reads(SplitLines(MergeText(file, values))) == Reads(LinesOf(file)) + MapOf(values) <==> WellFormed(values)
  {
    if WellFormed(values) {
      MergeRefinesUpdate(file, values);
    } else if Reads(SplitLines(MergeText(file, values))) == Reads(LinesOf(file)) + MapOf(values) {
      forall i | 0 <= i < |values|
        ensures ValidName(values[i].0) && OneLine(values[i].1)
      {
        MapOfHas(values, i);
        ReadsAreWellFormed(MergeText(file, values), values[i].0);
      }
    }
  }

  /** A second run reports nothing and writes the same text. */
  lemma MergeTwiceChangesNothing(file: Option<string>, values: Values)
    requires WellFormed(values)
    ensures var text := MergeText(file, values);
            && MergeText(Some(text), values) == text
            && MergeLines(LinesOf(Some(text)), values).added == []
            && MergeLines(LinesOf(Some(text)), values).updated == []
  {
    var lines := LinesOf(file);
    LinesAreOneLine(file);
    var out := MergeLines(lines, values).lines;
    MergedIsOneLine(lines, values);
    RenderReadBack(out);
    MergeUpdatesCurrent(lines, values);
    TrimKeepsCurrent(LineName, out);
    var entries, again := EntriesOf(values), Trimmed(out);
    forall i | 0 <= i < |entries|
      ensures entries[i].0 in Current(LineName, again) && Current(LineName, again)[entries[i].0] == entries[i].1
    {
      MapOfHas(entries, i);
    }
    SeenIsCurrent(LineName, again);
    SettledChangesNothing(LineName, again, entries);
  }

  lemma LinesStay(file: Option<string>, values: Values, i: nat)
    requires WellFormed(values) && i < |LinesOf(file)|
    ensures var lines := LinesOf(file);
            var written := SplitLines(MergeText(file, values));
            || (i < |written| && written[i] == lines[i])
            || (i >= |written| && lines[i] == "")
            || (LineName(lines[i]).Some? && LineName(lines[i]).value in MergeLines(lines, values).updated && AssignedLast(lines, i))
  {
    var lines := LinesOf(file);
    LinesAreOneLine(file);
    var out := MergeLines(lines, values).lines;
    MergedIsOneLine(lines, values);
    RenderReadBack(out);
    TrimmedShape(out);
    SeenIsCurrent(LineName, lines);
    UnrelatedLinesStay(Seen(LineName, lines), lines, EntriesOf(values), i);
    if out[i] != lines[i] {
      var name :| name in MergeLines(lines, values).updated && name in Seen(LineName, lines) && Seen(LineName, lines)[name] == i;
      forall j | i < j < |lines| ensures LineName(lines[j]) != LineName(lines[i]) {
        SeenIsLast(LineName, lines, name, j);
      }
    }
  }

  /** No later line assigns the same name. */
  ghost predicate AssignedLast(lines: seq<string>, i: nat)
    requires i < |lines|
  {
    forall j :: i < j < |lines| ==> LineName(lines[j]) != LineName(lines[i])
  }

  /**
   * Whatever lines and breaks a file consists of, every line is still at its
   * place, unless it was the last one of an updated name or a blank line at
   * the end.
   */
  lemma MergeKeepsUnrelatedLines(lines: seq<string>, breaks: seq<string>, values: Values, i: nat)
    requires Layout(lines, breaks) && WellFormed(values) && i < |lines|
    ensures var written := SplitLines(MergeText(Some(Woven(lines, breaks)), values));
            || (i < |written| && written[i] == lines[i])
            || (i >= |written| && lines[i] == "")
            || (LineName(lines[i]).Some? && LineName(lines[i]).value in MergeLines(lines, values).updated && AssignedLast(lines, i))
  {
    SplitWoven(lines, breaks);
    LinesStay(Some(Woven(lines, breaks)), values, i);
  }

  /** What is written: lines that each end in a line feed, the last one not blank. */
  lemma WrittenLayout(file: Option<string>, values: Values)
    requires WellFormed(values)
    ensures var written := SplitLines(MergeText(file, values));
            && MergeText(file, values) == Woven(written, seq(|written|, i => "\n"))
            && (written != [] ==> written[|written| - 1] != "")
  {
    var lines := LinesOf(file);
    LinesAreOneLine(file);
    var out := MergeLines(lines, values).lines;
    MergedIsOneLine(lines, values);
    RenderReadBack(out);
    RenderIsTerminated(out);
    TrimmedShape(out);
    TerminatedIsWoven(Trimmed(out));
  }

  lemma {:induction false} TerminatedIsWoven(lines: seq<string>)
    ensures Terminated(lines) == Woven(lines, seq(|lines|, i => "\n"))
  {
    if lines != [] {
      TerminatedIsWoven(lines[1..]);
      assert seq(|lines|, i => "\n")[1..] == seq(|lines[1..]|, i => "\n");
    }
  }

  /** A name is reported as updated exactly when the file decided it by another line than the one written. */
  lemma UpdatedExactly(lines: seq<string>, values: Values, i: nat)
    requires DistinctNames(values) && i < |values|
    ensures var (name, value) := values[i];
            name in MergeLines(lines, values).updated
            <==> name in Current(LineName, lines) && Current(LineName, lines)[name] != Rendered(name, value)
  {
    SeenIsCurrent(LineName, lines);
    PutAllReportsUpdates(Seen(LineName, lines), lines, EntriesOf(values), i);
  }

  lemma ExportedReads(name: string, value: string)
    requires ValidName(name)
    ensures var line := "export " + Rendered(name, value);
            LineName(line) == Some(name) && Unquote(RawOf(line)) == value
  {
    var q := QuoteEnv(value);
    var line := "export " + Rendered(name, value);
    assert line == "" + "export " + (name + ("" + "=" + q));
    LineNameComplete(line, "", "export ", name, "", q);
    var head := "export " + name;
    assert line == head + "=" + q;
    RawAfter(head, q);
    QuoteRoundTrip(value);
  }

  /**
   * "An existing key with the same value is left alone" compares lines, not
   * values: an exported assignment of the same value is rewritten and reported.
   */
  lemma ExportIsRewritten(name: string, value: string)
    requires ValidName(name)
    ensures var line, written := "export " + Rendered(name, value), Rendered(name, value);
            && Reads([line]) == map[name := value] == Reads([written])
            && MergeLines([line], [(name, value)]) == Merged([written], [], [name])
  {
    var line, written := "export " + Rendered(name, value), Rendered(name, value);
    ExportedReads(name, value);
    RenderedReads(name, value);
    OneLineCurrent(LineName, line, name);
    OneLineCurrent(LineName, written, name);
    assert |line| != |written|;
    OnePut(line, name, written);
    assert EntriesOf([(name, value)]) == [(name, written)];
  }

  lemma OneLineCurrent(f: Namer, line: string, name: string)
    requires f(line) == Some(name)
    ensures Current(f, [line]) == map[name := line] && Seen(f, [line]) == map[name := 0]
  {
    assert [line][..0] == [];
  }

  lemma OnePut(line: string, name: string, written: string)
    requires line != written
    ensures PutAll(map[name := 0], [line], [(name, written)]) == Merged([written], [], [name])
  {
    assert [(name, written)][..0] == [];
    assert PutAll(map[name := 0], [line], []) == Merged([line], [], []);
  }
}
