/**
  One line of an INI file: the string helpers and the line parser of zc/src/iniparser.c, what any line with a key is
  read as, and what a dumped line reads back as.
 */
module IniLines {

  import opened Options

  /** The usable size of the parser's string buffers. */
  const ASCIILINESZ := 1024

  predicate IsSpace(c: char) {
    c == ' ' || '\t' <= c <= '\r'
  }

  function ToLower(c: char): char {
    if 'A' <= c <= 'Z' then (c as int + 32) as char else c
  }

  const CAPITALS := "ABCDEFGHIJKLMNOPQRSTUVWXYZ"
  const SMALLS := "abcdefghijklmnopqrstuvwxyz"

  /** The letters and the blanks of the C locale. */
  lemma CharacterClasses(c: char, i: nat)
    requires i < 26
    ensures ToLower(CAPITALS[i]) == SMALLS[i]
    ensures c !in CAPITALS ==> ToLower(c) == c
    ensures IsSpace(c) <==> c in " \t\n\U{0B}\U{0C}\r"
  {
    assert CAPITALS[i] == ('A' as int + i) as char && SMALLS[i] == ('a' as int + i) as char;
    if 'A' <= c <= 'Z' {
      assert CAPITALS[c as int - 'A' as int] == c;
    }
  }

  /** What fits in a buffer. */
  function Cut(s: string): string {
    if |s| <= ASCIILINESZ then s else s[..ASCIILINESZ]
  }

  function Lower(s: string): (l: string)
    ensures |l| == |s| && forall i :: 0 <= i < |s| ==> l[i] == ToLower(s[i])
  {
    if s == [] then [] else Lower(s[..|s| - 1]) + [ToLower(s[|s| - 1])]
  }

  function TrimStart(s: string): string {
    if s != [] && IsSpace(s[0]) then TrimStart(s[1..]) else s
  }

  function TrimEnd(s: string): string {
    if s != [] && IsSpace(s[|s| - 1]) then TrimEnd(s[..|s| - 1]) else s
  }

  function Strip(s: string): string {
    TrimEnd(Cut(TrimStart(s)))
  }

  /** strlwc. */
  method StrLwc(s: string) returns (l: string)
    ensures l == Lower(Cut(s))
  {
    l := [];
    var i := 0;
    while i < |s| && i < ASCIILINESZ
      invariant i <= |s| && i <= ASCIILINESZ && l == Lower(s[..i])
    {
      assert s[..i + 1][..i] == s[..i];
      l := l + [ToLower(s[i])];
      i := i + 1;
    }
    assert s[..i] == Cut(s);
  }

  /** strstrip. */
  method StrStrip(s: string) returns (l: string)
    ensures l == Strip(s)
  {
    hide TrimEnd;
    var i := 0;
    while i < |s| && IsSpace(s[i])
      invariant i <= |s| && TrimStart(s[i..]) == TrimStart(s)
    {
      assert s[i..][1..] == s[i + 1..];
      i := i + 1;
    }
    l := s[i..];
    if |l| > ASCIILINESZ {
      l := l[..ASCIILINESZ];
    }
    l := StripEnd(l);
  }

  /** The second loop of strstrip. */
  method StripEnd(s: string) returns (l: string)
    ensures l == TrimEnd(s)
  {
    l := s;
    var last := |l|;
    assert l[..last] == l;
    while last > 0 && IsSpace(l[last - 1])
      invariant 0 <= last <= |l| && TrimEnd(l[..last]) == TrimEnd(l)
    {
      assert l[..last][..last - 1] == l[..last - 1];
      last := last - 1;
    }
    l := l[..last];
  }

  // ----- sscanf -----

  /** The end of the run of characters outside stop that starts at i: the %[^...] conversion. */
  function RunEnd(s: string, i: nat, stop: set<char>): (j: nat)
    requires i <= |s|
    ensures i <= j <= |s|
    ensures forall x :: i <= x < j ==> s[x] !in stop
    ensures j < |s| ==> s[j] in stop
    decreases |s| - i
  {
    if i < |s| && s[i] !in stop then RunEnd(s, i + 1, stop) else i
  }

  /** A blank in the format. */
  function SkipSpace(s: string, i: nat): (j: nat)
    requires i <= |s|
    ensures i <= j <= |s|
    ensures forall x :: i <= x < j ==> IsSpace(s[x])
    ensures j < |s| ==> !IsSpace(s[j])
    decreases |s| - i
  {
    if i < |s| && IsSpace(s[i]) then SkipSpace(s, i + 1) else i
  }

  /** key is the nonempty text before the first '='. */
  predicate BeforeEquals(line: string, key: string) {
    key != [] && key < line && '=' !in key && line[|key|] == '='
  }

  /** "%[^=] = Q%[^Q]" for a quote character Q: the two strings when both conversions succeed. */
  function ScanQuoted(line: string, quote: char): (r: Option<(string, string)>)
    ensures r.Some? ==> BeforeEquals(line, r.value.0) && |r.value.1| <= |line|
  {
    var e := RunEnd(line, 0, {'='});
    if e == 0 || e == |line| then None
    else
      var v := SkipSpace(line, e + 1);
      if v == |line| || line[v] != quote then None
      else
        var w := RunEnd(line, v + 1, {quote});
        if w == v + 1 then None else Some((line[..e], line[v + 1..w]))
  }

  /** "%[^=] = %[^;#]". */
  function ScanPlain(line: string): (r: Option<(string, string)>)
    ensures r.Some? ==> BeforeEquals(line, r.value.0) && |r.value.1| <= |line|
  {
    var e := RunEnd(line, 0, {'='});
    if e == 0 || e == |line| then None
    else
      var v := SkipSpace(line, e + 1);
      var w := RunEnd(line, v, {';', '#'});
      if w == v then None else Some((line[..e], line[v..w]))
  }

  /** "%[^=] = %[;#]", or else "%[^=] %[=]": the key only. */
  function ScanEmpty(line: string): (r: Option<string>)
    ensures r.Some? ==> BeforeEquals(line, r.value)
  {
    var e := RunEnd(line, 0, {'='});
    if e == 0 || e == |line| then None else Some(line[..e])
  }

  // ----- iniparser_line -----

  datatype Parsed =
    | Empty
    | Comment
    | Section(name: string)
    | Entry(key: string, value: string)
    | Error

  /** A scanned value as the parser leaves it. */
  function FinishedValue(v: string): string {
    var s := Strip(v);
    if s == "\"\"" || s == "''" then "" else s
  }

  function Finished(kv: (string, string)): Parsed {
    Entry(Lower(Cut(Strip(kv.0))), FinishedValue(kv.1))
  }

  /** The branches of iniparser_line for a line that is no comment and no section. */
  function ParseEntry(line: string): Parsed {
    if ScanQuoted(line, '"').Some? then Finished(ScanQuoted(line, '"').value)
    else if ScanQuoted(line, '\'').Some? then Finished(ScanQuoted(line, '\'').value)
    else if ScanPlain(line).Some? then Finished(ScanPlain(line).value)
    else if ScanEmpty(line).Some? then Entry(Lower(Cut(Strip(ScanEmpty(line).value))), "")
    else Error
  }

  /** iniparser_line; section is the name left by the previous section line, which "[]" keeps. */
  function ParseLine(input: string, section: string): Parsed {
    var line := Strip(input);
    if line == [] then Empty
    else if line[0] == '#' || line[0] == ';' then Comment
    else if line[0] == '[' && line[|line| - 1] == ']' then
      var e := RunEnd(line, 1, {']'});
      Section(Lower(Cut(Strip(if e == 1 then section else line[1..e]))))
    else ParseEntry(line)
  }

  /** iniparser_line as it is written: every text goes through the static buffers of strstrip and strlwc. */
  method IniparserLine(input: string, section: string) returns (p: Parsed)
    ensures p == ParseLine(input, section)
  {
    var line := StrStrip(input);
    if line == [] {
      p := Empty;
    } else if line[0] == '#' || line[0] == ';' {
      p := Comment;
    } else if line[0] == '[' && line[|line| - 1] == ']' {
      var e := RunEnd(line, 1, {']'});
      var name := if e == 1 then section else line[1..e];
      name := StrStrip(name);
      name := StrLwc(name);
      p := Section(name);
    } else {
      var kv := ScanQuoted(line, '"');
      if kv.None? {
        kv := ScanQuoted(line, '\'');
      }
      if kv.None? {
        kv := ScanPlain(line);
      }
      if kv.Some? {
        var key := StrStrip(kv.value.0);
        key := StrLwc(key);
        var value := StrStrip(kv.value.1);
        if value == "\"\"" || value == "''" {
          value := "";
        }
        p := Entry(key, value);
      } else {
        var k := ScanEmpty(line);
        if k.Some? {
          var key := StrStrip(k.value);
          key := StrLwc(key);
          p := Entry(key, "");
        } else {
          p := Error;
        }
      }
    }
  }

  /** Exactly the lines that are a syntax error: nothing before the first '=', or no '=' at all. */
  lemma SyntaxErrors(input: string, section: string)
    ensures ParseLine(input, section) == Error <==>
            var line := Strip(input);
            && line != [] && line[0] != '#' && line[0] != ';'
            && !(line[0] == '[' && line[|line| - 1] == ']')
            && (line[0] == '=' || '=' !in line)
  {
    var line := Strip(input);
    if line != [] {
      var e := RunEnd(line, 0, {'='});
      assert e < |line| ==> line[e] == '=';
    }
  }

  // ----- stripped strings -----

  /** Begins and ends with a character that is no blank, or is empty. */
  predicate Stripped(s: string) {
    s == [] || (!IsSpace(s[0]) && !IsSpace(s[|s| - 1]))
  }

  predicate Lowercase(s: string) {
    forall i :: 0 <= i < |s| ==> ToLower(s[i]) == s[i]
  }

  lemma {:induction false} TrimStartIs(s: string, i: nat)
    requires i <= |s| && (forall x :: 0 <= x < i ==> IsSpace(s[x])) && (i < |s| ==> !IsSpace(s[i]))
    ensures TrimStart(s) == s[i..]
  {
    if i > 0 {
      assert forall x :: 0 <= x < |s| - 1 ==> s[1..][x] == s[x + 1];
      TrimStartIs(s[1..], i - 1);
      assert s[1..][i - 1..] == s[i..];
    }
  }

  lemma {:induction false} TrimEndIs(s: string, i: nat)
    requires i <= |s| && (forall x :: i <= x < |s| ==> IsSpace(s[x])) && (i > 0 ==> !IsSpace(s[i - 1]))
    ensures TrimEnd(s) == s[..i]
    decreases |s|
  {
    if i < |s| {
      assert forall x :: 0 <= x < |s| - 1 ==> s[..|s| - 1][x] == s[x];
      TrimEndIs(s[..|s| - 1], i);
      assert s[..|s| - 1][..i] == s[..i];
    }
  }

  lemma StripIs(s: string)
    requires Stripped(s) && |s| <= ASCIILINESZ
    ensures Strip(s) == s
  {
    TrimStartIs(s, 0);
    TrimEndIs(s, |s|);
  }

  lemma {:induction false} TrimEndFacts(s: string)
    ensures TrimEnd(s) <= s
    ensures TrimEnd(s) != [] ==> !IsSpace(TrimEnd(s)[|TrimEnd(s)| - 1])
    ensures forall x :: |TrimEnd(s)| <= x < |s| ==> IsSpace(s[x])
  {
    if s != [] && IsSpace(s[|s| - 1]) {
      TrimEndFacts(s[..|s| - 1]);
      assert forall x :: 0 <= x < |s| - 1 ==> s[..|s| - 1][x] == s[x];
    }
  }

  lemma {:induction false} TrimStartFacts(s: string) returns (n: nat)
    ensures n <= |s| && TrimStart(s) == s[n..]
    ensures forall x :: 0 <= x < n ==> IsSpace(s[x])
    ensures n < |s| ==> !IsSpace(s[n])
  {
    if s != [] && IsSpace(s[0]) {
      var m := TrimStartFacts(s[1..]);
      n := m + 1;
      assert forall x :: 0 <= x < |s| - 1 ==> s[1..][x] == s[x + 1];
      assert s[1..][m..] == s[n..];
    } else {
      n := 0;
      assert s[0..] == s;
    }
  }

  /** Stripping takes a contiguous part that keeps everything but blanks. */
  lemma StripFacts(s: string) returns (n: nat)
    requires |s| <= ASCIILINESZ
    ensures Stripped(Strip(s)) && n + |Strip(s)| <= |s| && Strip(s) == s[n..n + |Strip(s)|]
    ensures forall x :: 0 <= x < n || n + |Strip(s)| <= x < |s| ==> IsSpace(s[x])
  {
    n := TrimStartFacts(s);
    var t := s[n..];
    TrimEndFacts(t);
    assert forall x :: 0 <= x < |t| ==> t[x] == s[n + x];
    var m := |Strip(s)|;
    assert Strip(s) == t[..m] == s[n..n + m];
    forall x | n + m <= x < |s| ensures IsSpace(s[x]) {
      assert t[x - n] == s[x];
    }
  }

  lemma LowerIs(s: string)
    requires Lowercase(s)
    ensures Lower(s) == s
  {}

  lemma LowerFacts(s: string)
    ensures Lowercase(Lower(s)) && (Stripped(s) ==> Stripped(Lower(s)))
    ensures '=' !in s ==> '=' !in Lower(s)
  {}

  lemma RunEndIs(s: string, i: nat, j: nat, stop: set<char>)
    requires i <= j <= |s| && (forall x :: i <= x < j ==> s[x] !in stop) && (j < |s| ==> s[j] in stop)
    ensures RunEnd(s, i, stop) == j
  {}

  lemma SkipSpaceIs(s: string, i: nat, j: nat)
    requires i <= j <= |s| && (forall x :: i <= x < j ==> IsSpace(s[x])) && (j < |s| ==> !IsSpace(s[j]))
    ensures SkipSpace(s, i) == j
  {}

  // ----- dumped lines -----

  function Spaces(n: nat): (s: string)
    ensures |s| == n && forall i :: 0 <= i < n ==> s[i] == ' '
  {
    seq(n, _ => ' ')
  }

  /** "%-*s = %s", without its newline. */
  function EntryLine(width: nat, key: string, value: string): (l: string)
    ensures |l| == (if |key| < width then width else |key|) + 3 + |value|
  {
    key + Spaces(if |key| < width then width - |key| else 0) + " = " + value
  }

  /** "[%s]", without its newline. */
  function SectionLine(name: string): string {
    "[" + name + "]"
  }

  /** A value the parser does not take for a quoted one. */
  predicate Unquoted(v: string) {
    v == [] || (v[0] != '"' && v[0] != '\'') || |v| == 1 || (v[1] == v[0] && |v| > 2)
  }

  predicate KeyOk(k: string) {
    && k != [] && Stripped(k) && Lowercase(k) && '=' !in k && k[0] != '#' && k[0] != ';'
  }

  predicate ValueOk(v: string) {
    && Stripped(v) && ';' !in v && '#' !in v && Unquoted(v)
  }

  /** The condition on an entry's texts under which its dumped line reads back as the same entry. */
  predicate EntryOk(k: string, v: string) {
    && KeyOk(k) && ValueOk(v)
    && !(v != [] && v[|v| - 1] == '\\')
    && !(k[0] == '[' && v != [] && v[|v| - 1] == ']')
  }

  predicate SectionOk(s: string) {
    && s != [] && Stripped(s) && Lowercase(s) && ']' !in s
  }

  // ----- what the loader sees of one line -----

  /** A line without its newline: continued on the next line, or parsed. */
  function ReadLine(line: string, section: string): Option<Parsed> {
    var s := TrimEnd(line);
    if s != [] && s[|s| - 1] == '\\' then None else Some(ParseLine(s, section))
  }

  /** A line with a key as stripping leaves it: p and q around the '=', and nothing behind that without a value. */
  function KeyLine(k: string, p: string, q: string, v: string): string {
    k + p + "=" + (if v == [] then [] else q + v)
  }

  /** A dumped line up to its value, or up to '=' when that is empty: what stripping leaves. */
  function Core(width: nat, k: string, v: string): string {
    KeyLine(k, Spaces(if |k| < width then width - |k| else 0) + " ", " ", v)
  }

  predicate Blank(s: string) {
    forall i :: 0 <= i < |s| ==> IsSpace(s[i])
  }

  lemma StrippedLine(width: nat, k: string, v: string)
    requires k != [] && Stripped(k) && Stripped(v) && |EntryLine(width, k, v)| <= ASCIILINESZ
    ensures TrimEnd(EntryLine(width, k, v)) == Strip(Core(width, k, v)) == Core(width, k, v)
  {
    var l, c := EntryLine(width, k, v), Core(width, k, v);
    assert forall x :: 0 <= x < |c| ==> c[x] == l[x];
    assert forall x :: |c| <= x < |l| ==> l[x] == ' ';
    TrimEndIs(l, |c|);
    assert l[..|c|] == c;
    StripIs(c);
  }

  /** The characters of a line: the key, blanks up to the '=', blanks up to the value. */
  lemma LineChars(k: string, p: string, q: string, v: string, e: nat)
    requires k != [] && e == |k| + |p|
    ensures var c := KeyLine(k, p, q, v);
            && |c| == (if v == [] then e + 1 else e + 1 + |q| + |v|) && e < |c|
            && c[..|k|] == k && (forall x :: |k| <= x < e ==> c[x] == p[x - |k|]) && c[e] == '='
            && (v != [] ==> (forall x :: e + 1 <= x < e + 1 + |q| ==> c[x] == q[x - (e + 1)]) && c[e + 1 + |q|..] == v)
            && c[0] == k[0] && c[|c| - 1] == if v == [] then '=' else v[|v| - 1]
  {}

  /** Where the '=' and the value of a line are. */
  lemma Positions(k: string, p: string, q: string, v: string, e: nat)
    requires k != [] && '=' !in k && Stripped(v) && Blank(p) && Blank(q) && e == |k| + |p|
    ensures var c := KeyLine(k, p, q, v);
            && e < |c| && RunEnd(c, 0, {'='}) == e
            && SkipSpace(c, e + 1) == (if v == [] then e + 1 else e + 1 + |q|)
            && (v == [] ==> |c| == e + 1) && (v != [] ==> |c| == e + 1 + |q| + |v| && c[e + 1 + |q|..] == v)
  {
    hide KeyLine, RunEnd, SkipSpace;
    var c := KeyLine(k, p, q, v);
    LineChars(k, p, q, v, e);
    assert forall x :: 0 <= x < |k| ==> c[x] == c[..|k|][x] == k[x];
    RunEndIs(c, 0, e, {'='});
    if v == [] {
      SkipSpaceIs(c, e + 1, e + 1);
    } else {
      assert c[e + 1 + |q|] == c[e + 1 + |q|..][0] == v[0];
      SkipSpaceIs(c, e + 1, e + 1 + |q|);
    }
  }

  /** The key part of a line strips back to the key. */
  lemma StripKey(k: string, p: string, q: string, v: string, e: nat)
    requires k != [] && Stripped(k) && Blank(p) && e == |k| + |p| <= ASCIILINESZ
    ensures e <= |KeyLine(k, p, q, v)| && Strip(KeyLine(k, p, q, v)[..e]) == k
  {
    LineChars(k, p, q, v, e);
    var s := KeyLine(k, p, q, v)[..e];
    assert s[..|k|] == k;
    assert s[0] == k[0] && s[|k| - 1] == k[|k| - 1];
    TrimStartIs(s, 0);
    TrimEndIs(s, |k|);
  }

  /** The value that the parser takes from a line, in terms of the stripped text behind the '='. */
  function Reread(v: string): string {
    if v == [] then []
    else if v[0] in {'"', '\''} && |v| > 1 && v[1] != v[0] then FinishedValue(v[1..RunEnd(v, 1, {v[0]})])
    else FinishedValue(v[..RunEnd(v, 0, {';', '#'})])
  }

  /** The end of a run within the value part of a line is the end of the run in the value. */
  lemma RunInValue(c: string, at: nat, v: string, i: nat, stop: set<char>)
    requires at + |v| == |c| && c[at..] == v && i <= |v|
    ensures RunEnd(c, at + i, stop) == at + RunEnd(v, i, stop)
    ensures c[at + i..at + RunEnd(v, i, stop)] == v[i..RunEnd(v, i, stop)]
  {
    var w := RunEnd(v, i, stop);
    assert forall x :: 0 <= x < |v| ==> c[at + x] == v[x];
    RunEndIs(c, at + i, at + w, stop);
  }

  /** The quoted scan of a line whose '=' is at e and whose value starts at position at. */
  lemma QuotedAt(c: string, e: nat, at: nat, v: string, q: char)
    requires 0 < e < at && v != [] && |c| == at + |v| && c[at..] == v
    requires RunEnd(c, 0, {'='}) == e && SkipSpace(c, e + 1) == at
    ensures ScanQuoted(c, q) ==
            if v[0] == q && |v| > 1 && v[1] != q then Some((c[..e], v[1..RunEnd(v, 1, {q})])) else None
  {
    hide RunEnd, SkipSpace;
    assert c[at] == c[at..][0] == v[0];
    RunInValue(c, at, v, 1, {q});
    NoRun(v, q);
  }

  /** The run behind an opening quote is empty at the end and before another quote. */
  lemma NoRun(v: string, q: char)
    requires v != []
    ensures RunEnd(v, 1, {q}) == 1 <==> |v| == 1 || v[1] == q
  {}

  lemma PlainAt(c: string, e: nat, at: nat, v: string)
    requires 0 < e < at && v != [] && |c| == at + |v| && c[at..] == v
    requires RunEnd(c, 0, {'='}) == e && SkipSpace(c, e + 1) == at
    ensures var w := RunEnd(v, 0, {';', '#'});
            ScanPlain(c) == if w == 0 then None else Some((c[..e], v[..w]))
  {
    hide RunEnd, SkipSpace;
    RunInValue(c, at, v, 0, {';', '#'});
  }

  /** The ends of a dumped line. */
  lemma CoreEnds(width: nat, k: string, v: string)
    requires k != []
    ensures var c := Core(width, k, v); |c| >= 2 && c[0] == k[0] && c[|c| - 1] == if v == [] then '=' else v[|v| - 1]
    ensures |Core(width, k, v)| <= |EntryLine(width, k, v)|
  {}

  lemma FinishedNothing(v: string)
    requires v == []
    ensures FinishedValue(v) == []
  {}

  lemma ParseEntryIs(k: string, p: string, q: string, v: string)
    requires k != [] && Stripped(k) && '=' !in k && Stripped(v) && Blank(p) && Blank(q)
    requires |k| + |p| <= ASCIILINESZ
    ensures ParseEntry(KeyLine(k, p, q, v)) == Entry(Lower(k), Reread(v))
  {
    hide KeyLine, RunEnd, SkipSpace, Stripped, IsSpace, Strip, Lower, Blank, ParseEntry, Reread;
    var c, e := KeyLine(k, p, q, v), |k| + |p|;
    Positions(k, p, q, v, e);
    StripKey(k, p, q, v, e);
    if v == [] {
      EmptyAt(k, c, e);
    } else {
      ValueAt(k, c, e, e + 1 + |q|, v);
    }
  }

  lemma EmptyAt(k: string, c: string, e: nat)
    requires 0 < e && |c| == e + 1 && RunEnd(c, 0, {'='}) == e && SkipSpace(c, e + 1) == e + 1
    requires Strip(c[..e]) == k && |k| <= ASCIILINESZ
    ensures ParseEntry(c) == Entry(Lower(k), Reread([]))
  {
    hide RunEnd, SkipSpace, Strip, Lower;
    assert RunEnd(c, e + 1, {';', '#'}) == e + 1;
  }

  lemma ValueAt(k: string, c: string, e: nat, at: nat, v: string)
    requires 0 < e < at && v != [] && |c| == at + |v| && c[at..] == v
    requires RunEnd(c, 0, {'='}) == e && SkipSpace(c, e + 1) == at
    requires Strip(c[..e]) == k && |k| <= ASCIILINESZ
    ensures ParseEntry(c) == Entry(Lower(k), Reread(v))
  {
    hide RunEnd, SkipSpace, Strip, Lower, FinishedValue, ScanQuoted, ScanPlain;
    QuotedAt(c, e, at, v, '"');
    QuotedAt(c, e, at, v, '\'');
    PlainAt(c, e, at, v);
    FinishedNothing(v[..0]);
  }

  /** The parser on a stripped line with a key. */
  lemma ParseKeyLine(k: string, p: string, q: string, v: string, input: string, section: string)
    requires k != [] && Stripped(k) && '=' !in k && Stripped(v) && Blank(p) && Blank(q)
    requires |k| + |p| <= ASCIILINESZ && Strip(input) == KeyLine(k, p, q, v)
    ensures var r := ParseLine(input, section);
            if k[0] == '#' || k[0] == ';' then r == Comment
            else if k[0] == '[' && v != [] && v[|v| - 1] == ']' then r.Section?
            else r == Entry(Lower(k), Reread(v))
  {
    hide ParseEntry, KeyLine, Strip, Stripped, Blank, Lower, Reread, RunEnd;
    LineChars(k, p, q, v, |k| + |p|);
    ParseEntryIs(k, p, q, v);
  }

  /** The parser on a dumped line. */
  lemma ParseCore(width: nat, k: string, v: string, section: string)
    requires k != [] && Stripped(k) && '=' !in k && Stripped(v) && |EntryLine(width, k, v)| <= ASCIILINESZ
    ensures var p := ParseLine(Core(width, k, v), section);
            if k[0] == '#' || k[0] == ';' then p == Comment
            else if k[0] == '[' && v != [] && v[|v| - 1] == ']' then p.Section?
            else p == Entry(Lower(k), Reread(v))
  {
    hide ParseLine, EntryLine, Strip, Stripped, KeyLine;
    StrippedLine(width, k, v);
    CoreEnds(width, k, v);
    var p := Spaces(if |k| < width then width - |k| else 0) + " ";
    assert |p| <= |EntryLine(width, k, v)| - |k| by {
      LineLength(width, k, v);
    }
    ParseKeyLine(k, p, " ", v, Core(width, k, v), section);
  }

  lemma LineLength(width: nat, k: string, v: string)
    ensures |EntryLine(width, k, v)| == |k| + |Spaces(if |k| < width then width - |k| else 0) + " "| + 2 + |v|
  {}

  // ----- what any line with a key is read as -----

  /** What may stand behind a value: blanks, and then nothing or a comment. */
  predicate CommentTail(t: string) {
    exists n: nat :: n <= |t| && Blank(t[..n]) && (n < |t| ==> t[n] == ';' || t[n] == '#')
  }

  /** A text that can stand before the '=' as a key, and is not taken for a section with what comes last in the line. */
  predicate KeyText(k: string, rest: string) {
    && k != [] && Stripped(k) && '=' !in k && k[0] != '#' && k[0] != ';'
    && !(k[0] == '[' && TrimEnd(rest) != [] && TrimEnd(rest)[|TrimEnd(rest)| - 1] == ']')
  }

  lemma StripOf(b: string, s: string)
    requires Blank(b) && s != [] && !IsSpace(s[0]) && |b + s| <= ASCIILINESZ
    ensures Strip(b + s) == TrimEnd(s)
  {
    assert (b + s)[|b|] == s[0];
    TrimStartIs(b + s, |b|);
    assert (b + s)[|b|..] == s;
  }

  lemma TrimEndOf(s: string, t: string)
    requires TrimEnd(t) != []
    ensures TrimEnd(s + t) == s + TrimEnd(t)
  {
    var n := |TrimEnd(t)|;
    TrimEndFacts(t);
    assert TrimEnd(t) == t[..n];
    assert (s + t)[|s| + n - 1] == t[n - 1];
    TrimEndIs(s + t, |s| + n);
    assert (s + t)[..|s| + n] == s + t[..n];
  }

  lemma TrimTail(v: string, tail: string)
    requires v != [] && !IsSpace(v[|v| - 1]) && Blank(tail)
    ensures TrimEnd(v + tail) == v
  {
    TrimEndIs(v + tail, |v|);
    assert (v + tail)[..|v|] == v;
  }

  lemma StripKeyLine(b: string, k: string, p: string, q: string, rest: string)
    requires Blank(b) && Blank(q) && k != [] && Stripped(k) && (rest == [] || !IsSpace(rest[0]))
    requires |b + k + p + "=" + q + rest| <= ASCIILINESZ
    ensures Strip(b + k + p + "=" + q + rest) == KeyLine(k, p, q, TrimEnd(rest)) && Stripped(TrimEnd(rest))
  {
    hide Strip, TrimEnd, Blank, IsSpace;
    var head := k + p + "=";
    TrimEndFacts(rest);
    assert b + k + p + "=" + q + rest == b + (head + q + rest);
    StripOf(b, head + q + rest);
    if rest == [] {
      assert head + q + rest == head + q;
      NoBlank();
      TrimTail(head, q);
    } else {
      TrimEndOf(head + q, rest);
      assert head + q + TrimEnd(rest) == head + (q + TrimEnd(rest));
    }
  }

  lemma NoBlank()
    ensures !IsSpace('=')
  {}

  /** The parser on any line with a key: the value depends only on what stands behind the '=' and its blanks. */
  lemma ParseAnyKeyLine(b: string, k: string, p: string, q: string, rest: string, section: string)
    requires Blank(b) && Blank(p) && Blank(q) && KeyText(k, rest) && (rest == [] || !IsSpace(rest[0]))
    requires |b + k + p + "=" + q + rest| <= ASCIILINESZ
    ensures ParseLine(b + k + p + "=" + q + rest, section) == Entry(Lower(k), Reread(TrimEnd(rest)))
  {
    hide Blank, Stripped, IsSpace, Strip, ParseLine, Lower, Reread, KeyLine, TrimEnd;
    StripKeyLine(b, k, p, q, rest);
    ParseKeyLine(k, p, q, TrimEnd(rest), b + k + p + "=" + q + rest, section);
  }

  /** A plain value, with or without blanks around the '=' and a comment behind it, is stored as it stands. */
  lemma PlainValueIsRead(b: string, k: string, p: string, q: string, v: string, tail: string, section: string)
    requires Blank(b) && Blank(p) && Blank(q) && KeyText(k, v + tail) && CommentTail(tail)
    requires v != [] && ValueOk(v) && (v == "\"" || v == "'" ==> Blank(tail))
    requires |b + k + p + "=" + q + (v + tail)| <= ASCIILINESZ
    ensures ParseLine(b + k + p + "=" + q + (v + tail), section) == Entry(Lower(k), v)
    ensures KeyOk(k) ==> ParseLine(b + k + p + "=" + q + (v + tail), section) == Entry(k, v)
  {
    hide Blank, Stripped, IsSpace, ParseLine, Lower, Reread, TrimEnd, KeyText, CommentTail, Unquoted;
    assert (v + tail)[0] == v[0];
    StrippedHead(v);
    ParseAnyKeyLine(b, k, p, q, v + tail, section);
    PlainReread(v, tail);
    if KeyOk(k) {
      LowerIs(k);
    }
  }

  lemma PlainReread(v: string, tail: string)
    requires v != [] && ValueOk(v) && (v == "\"" || v == "'" ==> Blank(tail)) && CommentTail(tail)
    requires |v + tail| <= ASCIILINESZ
    ensures Reread(TrimEnd(v + tail)) == v
  {
    hide TrimEnd, Reread;
    var n: nat :| n <= |tail| && Blank(tail[..n]) && (n < |tail| ==> tail[n] == ';' || tail[n] == '#');
    var s, u := v + tail, TrimEnd(v + tail);
    assert forall x :: 0 <= x < n ==> tail[..n][x] == tail[x];
    if n == |tail| {
      TrimTail(v, tail);
      RereadIs(v);
    } else {
      TrimmedComment(v, tail, n);
      CommentReread(v, u, n);
    }
  }

  lemma TrimmedComment(v: string, tail: string, n: nat)
    requires n < |tail| && !IsSpace(tail[n])
    ensures var u := TrimEnd(v + tail);
            |v| + n < |u| <= |v + tail| && u[|v| + n] == tail[n] && u[..|v|] == v && u[|v|..|v| + n] == tail[..n]
  {
    hide TrimEnd;
    var s := v + tail;
    TrimEndFacts(s);
    assert s[|v| + n] == tail[n];
    assert s[..|v|] == v && s[|v|..|v| + n] == tail[..n];
  }

  /** A value with blanks and a comment behind it. */
  lemma CommentReread(v: string, u: string, n: nat)
    requires v != [] && ValueOk(v) && v != "\"" && v != "'" && |v| + n < |u| <= ASCIILINESZ
    requires u[..|v|] == v && Blank(u[|v|..|v| + n]) && u[|v| + n] in {';', '#'}
    ensures Reread(u) == v
  {
    var w, b := |v| + n, u[|v|..|v| + n];
    assert forall x :: 0 <= x < |v| ==> u[x] == v[x] == u[..|v|][x];
    assert forall x :: |v| <= x < w ==> u[x] == b[x - |v|];
    RunEndIs(u, 0, w, {';', '#'});
    assert u[..w] == v + b;
    TrimStartIs(v + b, 0);
    TrimTail(v, b);
    assert Strip(u[..w]) == v;
  }

  /**
    A value behind an opening quote is stored without the blanks b1 and b2 around it, up to the closing quote and
    whatever follows that, or up to the end of a line without one. Only a quoted pair of the other quotes is dropped.
   */
  lemma QuotedValueIsRead(b: string, k: string, p: string, q: string, quote: char, b1: string, v: string, b2: string,
                          closing: string, section: string)
    requires quote == '"' || quote == '\''
    requires Blank(b) && Blank(p) && Blank(q) && KeyText(k, [quote] + (b1 + v + b2) + closing)
    requires Stripped(v) && quote !in v && Blank(b1) && Blank(b2)
    requires if closing == [] then v != [] else closing[0] == quote && b1 + v + b2 != []
    requires |b + k + p + "=" + q + ([quote] + (b1 + v + b2) + closing)| <= ASCIILINESZ
    ensures var value := if v == "\"\"" || v == "''" then "" else v;
            var r := ParseLine(b + k + p + "=" + q + ([quote] + (b1 + v + b2) + closing), section);
            r == Entry(Lower(k), value) && (KeyOk(k) ==> r == Entry(k, value))
  {
    hide Blank, Stripped, ParseLine, Lower, Reread, TrimEnd, KeyText;
    var rest := [quote] + (b1 + v + b2) + closing;
    assert rest[0] == quote && !IsSpace(quote);
    ParseAnyKeyLine(b, k, p, q, rest, section);
    QuotedReread(quote, b1, v, b2, closing);
    if KeyOk(k) {
      LowerIs(k);
    }
  }

  lemma QuotedReread(quote: char, b1: string, v: string, b2: string, closing: string)
    requires quote == '"' || quote == '\''
    requires Stripped(v) && quote !in v && Blank(b1) && Blank(b2)
    requires if closing == [] then v != [] else closing[0] == quote && b1 + v + b2 != []
    requires |[quote] + (b1 + v + b2) + closing| <= ASCIILINESZ
    ensures Reread(TrimEnd([quote] + (b1 + v + b2) + closing)) == if v == "\"\"" || v == "''" then "" else v
  {
    hide TrimEnd, Strip, Reread, Blank, IsSpace, Stripped;
    var inner := b1 + v + b2;
    NoQuoteInside(quote, b1, v, b2);
    if closing == [] {
      assert [quote] + inner + closing == [quote] + b1 + v + b2;
      UnclosedReread(quote, b1, v, b2);
    } else {
      StripAround(b1, v, b2);
      ClosedReread(quote, inner, closing);
    }
  }

  lemma UnclosedReread(quote: char, b1: string, v: string, b2: string)
    requires quote == '"' || quote == '\''
    requires v != [] && Stripped(v) && quote !in b1 + v && Blank(b1) && Blank(b2) && |b1 + v| <= ASCIILINESZ
    ensures Reread(TrimEnd([quote] + b1 + v + b2)) == FinishedValue(v) && Strip(v) == v
  {
    hide TrimEnd, Strip, Reread;
    TrimTail([quote] + b1 + v, b2);
    assert b1 + v + [] == b1 + v;
    StripAround(b1, v, []);
    StripIs(v);
    RereadInner(quote, b1 + v, [], [quote] + b1 + v);
  }

  lemma ClosedReread(quote: char, inner: string, closing: string)
    requires quote == '"' || quote == '\''
    requires inner != [] && quote !in inner && closing != [] && closing[0] == quote
    ensures Reread(TrimEnd([quote] + inner + closing)) == FinishedValue(inner)
  {
    hide TrimEnd, Strip, Reread;
    var s, u := [quote] + inner + closing, TrimEnd([quote] + inner + closing);
    TrimEndFacts(s);
    assert s[|inner| + 1] == quote;
    assert u == [quote] + inner + u[|inner| + 1..];
    RereadInner(quote, inner, u[|inner| + 1..], u);
  }

  lemma NoQuoteInside(quote: char, b1: string, v: string, b2: string)
    requires (quote == '"' || quote == '\'') && quote !in v && Blank(b1) && Blank(b2)
    ensures quote !in b1 + v + b2 && quote !in b1 + v
  {}

  lemma StripAround(b1: string, v: string, b2: string)
    requires Blank(b1) && Stripped(v) && Blank(b2) && |b1 + v + b2| <= ASCIILINESZ
    ensures Strip(b1 + v + b2) == v
  {
    hide Strip, TrimEnd;
    if v == [] {
      StripBlank(b1 + v + b2);
    } else {
      assert b1 + v + b2 == b1 + (v + b2);
      StripOf(b1, v + b2);
      TrimTail(v, b2);
    }
  }

  lemma StripBlank(s: string)
    requires Blank(s)
    ensures Strip(s) == []
  {
    TrimStartIs(s, |s|);
  }

  /** The text between two quotes, or behind one without a closing quote. */
  lemma RereadInner(quote: char, inner: string, closing: string, u: string)
    requires quote == '"' || quote == '\''
    requires inner != [] && quote !in inner && (closing == [] || closing[0] == quote) && u == [quote] + inner + closing
    ensures Reread(u) == FinishedValue(inner)
  {
    assert forall x :: 1 <= x <= |inner| ==> u[x] == inner[x - 1];
    assert closing != [] ==> u[|inner| + 1] == closing[0];
    RunEndIs(u, 1, |inner| + 1, {quote});
    assert u[1..|inner| + 1] == inner;
  }

  /** No value, an empty pair of quotes, and a comment in its place are all stored as the empty value. */
  lemma EmptyValueIsRead(b: string, k: string, p: string, q: string, v: string, tail: string, section: string)
    requires v in {"", "\"\"", "''"} && (v == "" ==> tail == "" || !IsSpace(tail[0]))
    requires Blank(b) && Blank(p) && Blank(q) && KeyText(k, v + tail) && CommentTail(tail)
    requires |b + k + p + "=" + q + (v + tail)| <= ASCIILINESZ
    ensures ParseLine(b + k + p + "=" + q + (v + tail), section) == Entry(Lower(k), "")
    ensures KeyOk(k) ==> ParseLine(b + k + p + "=" + q + (v + tail), section) == Entry(k, "")
  {
    hide Blank, Stripped, ParseLine, Lower, Reread, TrimEnd, KeyText, CommentTail;
    assert v + tail != [] ==> !IsSpace((v + tail)[0]);
    ParseAnyKeyLine(b, k, p, q, v + tail, section);
    EmptyReread(v, tail);
    if KeyOk(k) {
      LowerIs(k);
    }
  }

  lemma EmptyReread(v: string, tail: string)
    requires v in {"", "\"\"", "''"} && (v == "" ==> tail == "" || !IsSpace(tail[0])) && CommentTail(tail)
    requires |v + tail| <= ASCIILINESZ
    ensures Reread(TrimEnd(v + tail)) == ""
  {
    hide TrimEnd, Reread;
    var n: nat :| n <= |tail| && Blank(tail[..n]) && (n < |tail| ==> tail[n] == ';' || tail[n] == '#');
    assert forall x :: 0 <= x < n ==> tail[..n][x] == tail[x];
    if n < |tail| {
      TrimmedComment(v, tail, n);
      EmptyComment(v, TrimEnd(v + tail), n);
    } else if v != "" {
      TrimTail(v, tail);
      EmptyPair(v);
    } else {
      TrimEndFacts(v + tail);
      EmptyPair([]);
    }
  }

  lemma EmptyPair(v: string)
    requires v in {"", "\"\"", "''"}
    ensures Reread(v) == ""
  {
    if v != "" {
      assert v[..2] == v;
      RunEndIs(v, 0, 2, {';', '#'});
      StripIs(v);
    }
  }

  lemma EmptyComment(v: string, u: string, n: nat)
    requires v in {"", "\"\"", "''"} && |v| + n < |u| <= ASCIILINESZ && (v == "" ==> n == 0)
    requires u[..|v|] == v && Blank(u[|v|..|v| + n]) && u[|v| + n] in {';', '#'}
    ensures Reread(u) == ""
  {
    var w, b := |v| + n, u[|v|..|v| + n];
    assert forall x :: 0 <= x < |v| ==> u[x] == v[x] == u[..|v|][x];
    assert forall x :: |v| <= x < w ==> u[x] == b[x - |v|];
    RunEndIs(u, 0, w, {';', '#'});
    assert u[..w] == v + b;
    if v != "" {
      TrimStartIs(v + b, 0);
      TrimTail(v, b);
    }
    assert Strip(u[..w]) == v;
  }

  // ----- exactly which entries and sections read back -----

  /** A value is taken back as it is exactly when it has no comment character and does not look quoted. */
  lemma RereadIs(v: string)
    requires Stripped(v) && |v| <= ASCIILINESZ
    ensures Reread(v) == v <==> ValueOk(v)
  {
    if v == [] {
    } else if v[0] in {'"', '\''} && |v| > 1 && v[1] != v[0] {
      QuoteIsLost(v);
    } else {
      CommentIsLost(v);
    }
  }

  /** What is read behind a quote does not begin with that quote. */
  lemma QuoteIsLost(v: string)
    requires |v| > 1 && v[1] != v[0] && |v| <= ASCIILINESZ
    ensures FinishedValue(v[1..RunEnd(v, 1, {v[0]})]) != v
  {
    var run := v[1..RunEnd(v, 1, {v[0]})];
    var n := StripFacts(run);
    hide IsSpace, Strip, Stripped;
    assert v[0] !in run;
    assert FinishedValue(run) != [] ==> FinishedValue(run)[0] in run;
  }

  /** Only a value without comment characters is read to its end. */
  lemma CommentIsLost(v: string)
    requires v != [] && Stripped(v) && |v| <= ASCIILINESZ
    ensures FinishedValue(v[..RunEnd(v, 0, {';', '#'})]) == v <==> ';' !in v && '#' !in v && v != "\"\"" && v != "''"
  {
    var w := RunEnd(v, 0, {';', '#'});
    var n := StripFacts(v[..w]);
    hide IsSpace, Strip, RunEnd;
    if w == |v| {
      assert v[..w] == v;
      StripIs(v);
      assert forall x :: 0 <= x < |v| ==> v[x] !in {';', '#'};
    } else {
      assert v[w] in v;
    }
  }

  lemma FinishedFacts(key: string, value: string)
    requires |key| <= ASCIILINESZ && |value| <= ASCIILINESZ
    requires key != [] && !IsSpace(key[0]) && '=' !in key
    ensures var p := Finished((key, value));
            KeyShape(p.key) && Stripped(p.value)
    ensures KeyShape(Lower(Cut(Strip(key))))
  {
    var n := StripFacts(key);
    var m := StripFacts(value);
    assert n == 0 && Strip(key) != [];
    LowerFacts(Strip(key));
  }

  /** What every key that the parser produces is like. */
  predicate KeyShape(k: string) {
    k != [] && Stripped(k) && Lowercase(k) && '=' !in k
  }

  lemma StrippedHead(s: string)
    requires Stripped(s) && s != []
    ensures !IsSpace(s[0])
  {}

  lemma ParsedEntryFacts(input: string, section: string)
    requires |input| <= ASCIILINESZ
    ensures var p := ParseLine(input, section);
            p.Entry? ==> KeyShape(p.key) && Stripped(p.value)
  {
    var line, p := Strip(input), ParseLine(input, section);
    var n := StripFacts(input);
    if p.Entry? {
      StrippedHead(line);
      hide Finished, KeyShape, Stripped, Strip, Lower, RunEnd, SkipSpace, IsSpace, ScanQuoted, ScanPlain, ScanEmpty;
      if ScanQuoted(line, '"').Some? {
        FinishedFacts(ScanQuoted(line, '"').value.0, ScanQuoted(line, '"').value.1);
      } else if ScanQuoted(line, '\'').Some? {
        FinishedFacts(ScanQuoted(line, '\'').value.0, ScanQuoted(line, '\'').value.1);
      } else if ScanPlain(line).Some? {
        FinishedFacts(ScanPlain(line).value.0, ScanPlain(line).value.1);
      } else {
        FinishedFacts(ScanEmpty(line).value, []);
      }
    }
  }

  /** The dumped line of an entry reads back as that entry exactly when its texts meet EntryOk. */
  lemma EntryRoundTrip(width: nat, k: string, v: string, section: string)
    requires |EntryLine(width, k, v)| <= ASCIILINESZ
    ensures ReadLine(EntryLine(width, k, v), section) == Some(Entry(k, v)) <==> EntryOk(k, v)
  {
    hide ParseLine, Reread, EntryLine, Core, Strip, TrimEnd, Lower, Stripped, IsSpace;
    var s := TrimEnd(EntryLine(width, k, v));
    TrimEndFacts(EntryLine(width, k, v));
    ParsedEntryFacts(s, section);
    if k != [] && Stripped(k) && '=' !in k && Stripped(v) {
      StrippedLine(width, k, v);
      CoreEnds(width, k, v);
      ParseCore(width, k, v, section);
      RereadIs(v);
      if Lowercase(k) {
        LowerIs(k);
      }
      LowerFacts(k);
    }
  }

  /** A section line is read as the part of its name before the first ']'. */
  lemma SectionParsed(s: string, section: string)
    requires s != [] && s[0] != ']' && |SectionLine(s)| <= ASCIILINESZ
    ensures ReadLine(SectionLine(s), section) == Some(Section(Lower(Strip(s[..RunEnd(s, 0, {']'})]))))
  {
    hide ParseEntry, TrimEnd, Strip, IsSpace, Stripped, SectionLine, Lower;
    var l, w := SectionLine(s), RunEnd(s, 0, {']'});
    SectionLineFacts(s);
    assert w < |s| ==> l[w + 1] == s[w];
    RunEndIs(l, 1, w + 1, {']'});
    assert l[1..w + 1] == s[..w];
    StripShortens(s[..w]);
  }

  lemma SectionLineFacts(s: string)
    requires |SectionLine(s)| <= ASCIILINESZ
    ensures var l := SectionLine(s);
            && TrimEnd(l) == Strip(l) == l && |l| == |s| + 2 && l[0] == '[' && l[|l| - 1] == ']'
            && forall x :: 1 <= x <= |s| ==> l[x] == s[x - 1]
  {
    var l := SectionLine(s);
    TrimEndIs(l, |l|);
    StripIs(l);
  }

  lemma StripShortens(s: string)
    requires |s| <= ASCIILINESZ
    ensures |Strip(s)| <= |s| && Stripped(Strip(s))
  {
    var n := StripFacts(s);
  }

  /** The dumped line of a section reads back as that section, whatever section was open, exactly for these names. */
  lemma SectionRoundTrip(s: string, section: string)
    requires s != [] && s[0] != ']' && |SectionLine(s)| <= ASCIILINESZ
    ensures ReadLine(SectionLine(s), section) == Some(Section(s)) <==> SectionOk(s)
  {
    var w := RunEnd(s, 0, {']'});
    SectionParsed(s, section);
    StripShortens(s[..w]);
    LowerFacts(Strip(s[..w]));
    hide IsSpace, Strip, TrimEnd, ReadLine, Lower, SectionLine;
    if SectionOk(s) {
      assert s[..w] == s;
      StripIs(s);
      LowerIs(s);
    }
    assert w < |s| ==> s[w] in s;
  }
}
