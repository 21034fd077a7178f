/** Dumping a dictionary and loading the text back. */
module IniRoundTrip {

  import opened Options
  import opened Dictionaries
  import opened IniLines
  import opened IniFiles

  // ----- whole lines -----

  /** A line that fits the buffer and is not continued. */
  predicate Plain(line: string) {
    && '\n' !in line && |line| < MAXLINE
    && (TrimEnd(line) == [] || TrimEnd(line)[|TrimEnd(line)| - 1] != '\\')
  }

  /** Between lines. */
  predicate Ready(st: LoadState) {
    st.pending == "" && !st.tooLong
  }

  /** The loader's turn on a whole line. */
  function StepLine(st: LoadState, line: string): (r: LoadState)
    requires Ready(st) && Plain(line)
    ensures Ready(r)
  {
    if line == [] then st else Apply(st, ParseLine(TrimEnd(line), st.section))
  }

  function Fold(st: LoadState, lines: seq<string>): (r: LoadState)
    requires Ready(st) && forall i :: 0 <= i < |lines| ==> Plain(lines[i])
    ensures Ready(r)
  {
    if lines == [] then st else StepLine(Fold(st, lines[..|lines| - 1]), lines[|lines| - 1])
  }

  /** Whether every line is plain. */
  predicate AllPlain(lines: seq<string>) {
    forall i :: 0 <= i < |lines| ==> Plain(lines[i])
  }

  lemma {:induction false} FoldConcat(st: LoadState, a: seq<string>, b: seq<string>)
    requires Ready(st) && AllPlain(a) && AllPlain(b)
    ensures AllPlain(a + b) && Fold(st, a + b) == Fold(Fold(st, a), b)
  {
    hide StepLine, Plain;
    if b == [] {
      assert a + b == a;
    } else {
      assert (a + b)[..|a + b| - 1] == a + b[..|b| - 1];
      FoldConcat(st, a, b[..|b| - 1]);
    }
  }

  lemma FoldSnoc(st: LoadState, a: seq<string>, line: string)
    requires Ready(st) && AllPlain(a) && Plain(line)
    ensures AllPlain(a + [line]) && Fold(st, a + [line]) == StepLine(Fold(st, a), line)
  {
    assert (a + [line])[..|a|] == a;
  }

  /** The load loop takes a plain line in one read. */
  lemma RunLine(st: LoadState, line: string, rest: string)
    requires Ready(st) && Plain(line)
    ensures Run(st, line + "\n" + rest) == Run(StepLine(st, line), rest)
  {
    hide Apply, ParseLine, TrimEnd, Run, Step;
    var text := line + "\n" + rest;
    var e := |line|;
    assert forall x :: 0 <= x < e ==> text[x] == line[x];
    RunEndIs(text, 0, e, {'\n'});
    RunStep(st, text, e + 1);
    assert text[..e + 1] == line + "\n" && text[e + 1..] == rest;
    StepCases(st, line + "\n", line + "\n");
    TrimNewline(line);
  }

  /** The load loop on whole lines is the fold over them. */
  lemma {:induction false} RunJoin(st: LoadState, lines: seq<string>, rest: string)
    requires Ready(st) && AllPlain(lines)
    ensures Run(st, Join(lines) + rest) == Run(Fold(st, lines), rest)
    decreases |lines|
  {
    hide StepLine, Plain, Run;
    if lines == [] {
      assert Join(lines) + rest == rest;
    } else {
      var m := |lines| - 1;
      RunJoin(st, lines[..m], lines[m] + "\n" + rest);
      assert Join(lines) + rest == Join(lines[..m]) + (lines[m] + "\n" + rest);
      RunLine(Fold(st, lines[..m]), lines[m], rest);
    }
  }

  // ----- syntax errors -----

  /** The lines of a text once continued ones are joined, up to the first that does not fit the buffer. */
  datatype Split = Split(lines: seq<string>, fits: bool)

  /** How the load loop cuts the rest of a text into logical lines, given the line continued so far. */
  function Logical(pending: string, text: string): Split
    requires |pending| <= MAXLINE - 2
    decreases |text|
  {
    if text == [] then Split([], true)
    else
      var n := ReadLength(text, MAXLINE - |pending|);
      var line := pending + text[..n];
      if |line| == 1 then Logical(pending, text[n..])
      else if line[|line| - 1] != '\n' then Split([], false)
      else
        TrimLine(line);
        var s := TrimEnd(line);
        if s != [] && s[|s| - 1] == '\\' then Logical(s[..|s| - 1], text[n..])
        else
          var rest := Logical("", text[n..]);
          Split([s] + rest.lines, rest.fits)
  }

  lemma TrimLine(line: string)
    requires line != [] && line[|line| - 1] == '\n'
    ensures |TrimEnd(line)| < |line|
  {
    assert line == line[..|line| - 1] + "\n";
    TrimNewline(line[..|line| - 1]);
  }

  predicate IsError(line: string) {
    ParseLine(line, "").Error?
  }

  /** A line that the loader puts in the dictionary. */
  predicate IsStored(line: string) {
    var p := ParseLine(line, "");
    p.Section? || p.Entry?
  }

  ghost predicate NoneStored(lines: seq<string>) {
    forall j :: 0 <= j < |lines| ==> !IsStored(lines[j])
  }

  /** An error counts only until the next stored line, whose result overwrites the count. */
  ghost predicate ErrorAtEnd(lines: seq<string>) {
    exists i :: 0 <= i < |lines| && IsError(lines[i]) && NoneStored(lines[i + 1..])
  }

  lemma ErrorAtEndStep(line: string, rest: seq<string>)
    ensures ErrorAtEnd([line] + rest) <==> ErrorAtEnd(rest) || (IsError(line) && NoneStored(rest))
    ensures NoneStored([line] + rest) <==> !IsStored(line) && NoneStored(rest)
  {
    hide IsError, IsStored;
    var all := [line] + rest;
    assert all[0 + 1..] == rest;
    if NoneStored(all) {
      assert all[0] == line && forall j :: 0 <= j < |rest| ==> rest[j] == all[j + 1];
    }
    if i :| 0 <= i < |rest| && IsError(rest[i]) && NoneStored(rest[i + 1..]) {
      assert all[i + 1 + 1..] == rest[i + 1..] && all[i + 1] == rest[i];
    }
    if i :| 0 < i < |all| && IsError(all[i]) && NoneStored(all[i + 1..]) {
      assert rest[i - 1 + 1..] == all[i + 1..] && rest[i - 1] == all[i];
    }
  }

  /** One logical line's effect on the error count. */
  lemma ErrorStep(st: LoadState, line: string)
    ensures var r := Apply(st, ParseLine(line, st.section));
            (r.errs != 0 <==> IsError(line) || (st.errs != 0 && !IsStored(line)))
  {
    hide ParseEntry, Strip;
  }

  /** What the count says at the end, given what it was before these lines. */
  ghost predicate Reported(errs: nat, lines: seq<string>) {
    ErrorAtEnd(lines) || (errs != 0 && NoneStored(lines))
  }

  /** One logical line, then the rest. */
  lemma ReportedStep(st: LoadState, line: string, rest: seq<string>)
    ensures Reported(Apply(st, ParseLine(line, st.section)).errs, rest) <==> Reported(st.errs, [line] + rest)
  {
    hide IsError, IsStored, Apply, ParseLine, ErrorAtEnd, NoneStored;
    ErrorStep(st, line);
    ErrorAtEndStep(line, rest);
  }

  /** One read of Logical, in the order in which the loop decides. */
  lemma LogicalCases(pending: string, text: string, n: nat)
    requires |pending| <= MAXLINE - 2 && text != [] && n == ReadLength(text, MAXLINE - |pending|)
    ensures var line, rest := pending + text[..n], text[n..];
            var s := TrimEnd(line);
            && (|line| == 1 ==> Logical(pending, text) == Logical(pending, rest))
            && (|line| > 1 && line[|line| - 1] != '\n' ==> Logical(pending, text) == Split([], false))
            && (|line| > 1 && line[|line| - 1] == '\n' ==>
                  && |s| < |line|
                  && Logical(pending, text) ==
                     if s != [] && s[|s| - 1] == '\\' then Logical(s[..|s| - 1], rest)
                     else var l := Logical("", rest); Split([s] + l.lines, l.fits))
  {
    hide TrimEnd, ReadLength;
    var line := pending + text[..n];
    if line[|line| - 1] == '\n' {
      TrimLine(line);
    }
  }

  lemma {:induction false} RunErrors(st: LoadState, text: string)
    requires !st.tooLong && |st.pending| <= MAXLINE - 2
    ensures var l, r := Logical(st.pending, text), Run(st, text);
            (r.tooLong <==> !l.fits) && (l.fits ==> (r.errs != 0 <==> Reported(st.errs, l.lines)))
    decreases |text|
  {
    hide Reported, Apply, ParseLine, TrimEnd, Step, ReadLength, Logical, Run;
    if text == [] {
      NoLinesLeft(st);
    } else {
      var n := ReadLength(text, MAXLINE - |st.pending|);
      var line, rest := st.pending + text[..n], text[n..];
      RunStep(st, text, n);
      StepCases(st, text[..n], line);
      LogicalCases(st.pending, text, n);
      if |line| == 1 {
        RunErrors(st, rest);
      } else if line[|line| - 1] != '\n' {
        RunTooLong(st.(tooLong := true), rest);
      } else {
        var s := TrimEnd(line);
        if s != [] && s[|s| - 1] == '\\' {
          RunErrors(st.(pending := s[..|s| - 1]), rest);
        } else {
          var next := Apply(st.(pending := ""), ParseLine(s, st.section));
          ApplyIsReady(st.(pending := ""), ParseLine(s, st.section));
          RunErrors(next, rest);
          ReportedStep(st.(pending := ""), s, Logical("", rest).lines);
        }
      }
    }
  }

  lemma ApplyIsReady(st: LoadState, p: Parsed)
    ensures Apply(st, p).pending == "" && Apply(st, p).tooLong == st.tooLong
  {}

  lemma NoLinesLeft(st: LoadState)
    requires !st.tooLong && |st.pending| <= MAXLINE - 2
    ensures Logical(st.pending, []) == Split([], true) && Run(st, []) == st
    ensures Reported(st.errs, []) <==> st.errs != 0
  {}

  lemma RunTooLong(st: LoadState, text: string)
    requires st.tooLong
    ensures Run(st, text) == st
  {}

  /**
    Loading a file fails exactly when some logical line does not fit the buffer, or a syntax error has no
    section or entry line behind it; every earlier error is forgotten.
   */
  lemma FailsOnlyOnLastErrors(text: string)
    ensures LoadOf(text).None? <==> var l := Logical("", text); !l.fits || ErrorAtEnd(l.lines)
  {
    hide ErrorAtEnd, NoneStored, Run, Logical;
    RunErrors(INIT, text);
  }

  // ----- keys of the form section:key -----

  /** Where the section part of a key ends. */
  function Colon(k: string): (e: nat)
    requires ':' in k
    ensures e < |k| && k[e] == ':' && forall x :: 0 <= x < e ==> k[x] != ':'
  {
    assert exists x :: 0 <= x < |k| && k[x] == ':';
    RunEnd(k, 0, {':'})
  }

  function SectionPart(k: string): string requires ':' in k { k[..Colon(k)] }

  function KeyPart(k: string): string requires ':' in k { k[Colon(k) + 1..] }

  lemma PartsOf(k: string)
    requires ':' in k
    ensures SectionPart(k) + ":" + KeyPart(k) == k
  {}

  lemma PrefixIsSection(s: string, k: string)
    requires ':' !in s
    ensures s + ":" <= k <==> ':' in k && SectionPart(k) == s
    ensures s + ":" <= k ==> k == s + ":" + k[|s| + 1..] && k[|s| + 1..] == KeyPart(k)
  {
    if s + ":" <= k {
      assert k[|s|] == (s + ":")[|s|] == ':';
      assert forall x :: 0 <= x < |s| ==> k[x] == (s + ":")[x] == s[x];
      assert Colon(k) == |s|;
      assert k[..|s|] == s;
    }
    if ':' in k && SectionPart(k) == s {
      assert k[..|s| + 1] == s + ":";
    }
  }

  lemma {:induction false} SectionsAre(keys: seq<CString>, s: string)
    ensures s in Sections(keys) <==> Some(s) in keys && ':' !in s
  {
    if keys != [] {
      var m := |keys| - 1;
      SectionsAre(keys[..m], s);
      assert keys == keys[..m] + [keys[m]];
    }
  }

  // ----- what a dictionary must be like to come back -----

  /** The texts of one entry survive: see EntryOk and SectionOk; lines fit the buffer. */
  predicate EntryNormal(k: string, v: CString) {
    if ':' in k then
      && v.Some? && EntryOk(KeyPart(k), v.value)
      && '\n' !in KeyPart(k) && '\n' !in v.value && |EntryLine(KEYWIDTH, KeyPart(k), v.value)| < MAXLINE
    else
      v == None && SectionOk(k) && '\n' !in k && |SectionLine(k)| < MAXLINE
  }

  ghost predicate Normalised(m: map<string, CString>) {
    forall k :: k in m ==> EntryNormal(k, m[k])
  }

  /** The entry is dumped: it is a section, or its section is an entry too. */
  predicate HasSection(m: map<string, CString>, k: string) {
    ':' in k ==> SectionPart(k) in m
  }

  /** The part of a dictionary that a dump shows. */
  ghost function Dumped(m: map<string, CString>): map<string, CString> {
    map k | k in m && HasSection(m, k) :: m[k]
  }

  lemma EntryLinePlain(width: nat, k: string, v: string, section: string)
    requires EntryOk(k, v) && '\n' !in k && '\n' !in v && |EntryLine(width, k, v)| < MAXLINE
    ensures Plain(EntryLine(width, k, v)) && EntryLine(width, k, v) != []
    ensures ParseLine(TrimEnd(EntryLine(width, k, v)), section) == Entry(k, v)
  {
    hide EntryOk, ParseLine, TrimEnd;
    EntryRoundTrip(width, k, v, section);
    assert forall c :: c in EntryLine(width, k, v) ==> c in k || c in v || c in " =";
  }

  lemma SectionLinePlain(s: string, section: string)
    requires SectionOk(s) && '\n' !in s && |SectionLine(s)| < MAXLINE
    ensures Plain(SectionLine(s)) && SectionLine(s) != []
    ensures ParseLine(TrimEnd(SectionLine(s)), section) == Section(s)
  {
    hide ParseLine, TrimEnd;
    SectionRoundTrip(s, section);
    assert forall c :: c in SectionLine(s) ==> c in s || c in "[]";
  }

  // ----- following the dump -----

  /** What is loaded agrees with the dictionary, has only dumped entries, and no error is pending. */
  ghost predicate Faithful(st: LoadState, m: map<string, CString>) {
    && Ready(st) && st.errs == 0
    && forall k :: k in st.dict ==> k in m && st.dict[k] == m[k] && HasSection(m, k)
  }

  /** The slots stand for the map, whose entries are normal. */
  ghost predicate SlotsShow(keys: seq<CString>, vals: seq<CString>, m: map<string, CString>) {
    && |keys| == |vals| && Normalised(m)
    && forall i :: 0 <= i < |keys| && keys[i].Some? ==> keys[i].value in m && m[keys[i].value] == vals[i]
  }

  /** Every entry of section s in these slots is loaded. */
  ghost predicate Covers(st: LoadState, keys: seq<CString>, s: string) {
    forall i :: 0 <= i < |keys| && keys[i].Some? && s + ":" <= keys[i].value ==> keys[i].value in st.dict
  }

  lemma LineStep(st: LoadState, line: string, p: Parsed)
    requires Ready(st) && Plain(line) && line != [] && ParseLine(TrimEnd(line), st.section) == p
    ensures StepLine(st, line) == Apply(st, p)
  {}

  /** Storing one more dumped entry of the dictionary. */
  lemma FaithfulPut(st: LoadState, m: map<string, CString>, section: string, k: string)
    requires Faithful(st, m) && k in m && HasSection(m, k)
    ensures Faithful(LoadState(section, "", st.dict[k := m[k]], 0, false), m)
  {}

  lemma LoadEntry(st: LoadState, k: string, m: map<string, CString>)
    requires Faithful(st, m) && Normalised(m) && k in m && ':' in k && SectionPart(k) in m
    requires st.section == SectionPart(k)
    ensures m[k].Some? && Plain(EntryLine(KEYWIDTH, KeyPart(k), m[k].value))
    ensures var r := StepLine(st, EntryLine(KEYWIDTH, KeyPart(k), m[k].value));
            Faithful(r, m) && r == LoadState(st.section, "", st.dict[k := m[k]], 0, false)
  {
    hide EntryOk, ParseLine, TrimEnd, EntryLine, Plain, StepLine, Colon, KeyPart, SectionPart;
    assert EntryNormal(k, m[k]);
    var kp, v := KeyPart(k), m[k].value;
    EntryLinePlain(KEYWIDTH, kp, v, st.section);
    LineStep(st, EntryLine(KEYWIDTH, kp, v), Entry(kp, v));
    FaithfulPut(st, m, st.section, k);
    PartsOf(k);
  }

  lemma {:induction false} LoadEntries(st: LoadState, keys: seq<CString>, vals: seq<CString>,
                                       m: map<string, CString>, s: string)
    requires Faithful(st, m) && SlotsShow(keys, vals, m) && s in m && ':' !in s && st.section == s
    ensures AllPlain(EntryLines(keys, vals, s))
    ensures var r := Fold(st, EntryLines(keys, vals, s));
            Faithful(r, m) && r.section == s && st.dict.Keys <= r.dict.Keys && Covers(r, keys, s)
  {
    hide StepLine, Plain, EntryLine, Normalised, HasSection;
    if keys == [] {
    } else {
      var n := |keys| - 1;
      LoadEntries(st, keys[..n], vals[..n], m, s);
      var lines := EntryLines(keys[..n], vals[..n], s);
      var before := Fold(st, lines);
      if keys[n].Some? && s + ":" <= keys[n].value {
        var k := keys[n].value;
        PrefixIsSection(s, k);
        LoadEntry(before, k, m);
        FoldSnoc(st, lines, EntryLine(KEYWIDTH, KeyPart(k), m[k].value));
      } else {
        assert EntryLines(keys, vals, s) == lines;
      }
      CoversMore(before, Fold(st, EntryLines(keys, vals, s)), keys, s);
    }
  }

  lemma CoversMore(before: LoadState, after: LoadState, keys: seq<CString>, s: string)
    requires keys != [] && Covers(before, keys[..|keys| - 1], s) && before.dict.Keys <= after.dict.Keys
    requires var last := keys[|keys| - 1]; last.Some? && s + ":" <= last.value ==> last.value in after.dict
    ensures Covers(after, keys, s)
  {
    forall i | 0 <= i < |keys| && keys[i].Some? && s + ":" <= keys[i].value ensures keys[i].value in after.dict {
      if i < |keys| - 1 {
        assert keys[..|keys| - 1][i] == keys[i];
        assert keys[i].value in before.dict.Keys;
      }
    }
  }

  lemma LoadSectionHead(st: LoadState, m: map<string, CString>, s: string)
    requires Faithful(st, m) && Normalised(m) && s in m && ':' !in s
    ensures AllPlain(["", SectionLine(s)])
    ensures var r := Fold(st, ["", SectionLine(s)]);
            Faithful(r, m) && r == LoadState(s, "", st.dict[s := None], 0, false) && m[s] == None
  {
    assert EntryNormal(s, m[s]);
    hide SectionOk, ParseLine, TrimEnd, SectionLine, Plain, StepLine, Normalised, HasSection, EntryOk, KeyPart, Fold;
    SectionLinePlain(s, st.section);
    TwoLines(st, SectionLine(s));
    LineStep(st, SectionLine(s), Section(s));
    FaithfulPut(st, m, s, s);
  }

  /** A blank line changes nothing. */
  lemma TwoLines(st: LoadState, line: string)
    requires Ready(st) && Plain(line)
    ensures AllPlain(["", line]) && Fold(st, ["", line]) == StepLine(st, line)
  {
    hide StepLine, Plain, Fold;
    EmptyFold(st);
    BlankStep(st);
    FoldSnoc(st, [], "");
    FoldSnoc(st, [""], line);
    assert [] + [""] == [""] && [""] + [line] == ["", line];
  }

  lemma EmptyFold(st: LoadState)
    requires Ready(st)
    ensures Fold(st, []) == st
  {}

  lemma BlankLine()
    ensures Plain("")
  {}

  lemma LoadSection(st: LoadState, keys: seq<CString>, vals: seq<CString>, m: map<string, CString>, s: string)
    requires Faithful(st, m) && SlotsShow(keys, vals, m) && Some(s) in keys && ':' !in s
    ensures AllPlain(SectionLines(keys, vals, s))
    ensures var r := Fold(st, SectionLines(keys, vals, s));
            Faithful(r, m) && st.dict.Keys <= r.dict.Keys && s in r.dict && Covers(r, keys, s)
  {
    assert s in m && EntryNormal(s, m[s]);
    assert |s| <= ASCIILINESZ && Lowercase(s);
    LowerIs(s);
    hide SectionLine, EntryLines, Fold, StepLine, Plain, Normalised, EntryNormal, SlotsShow, Covers, Lower;
    assert Lower(Cut(s)) == s;
    BlankLine();
    LoadHeadAndEntries(st, keys, vals, m, s);
  }

  lemma LoadHeadAndEntries(st: LoadState, keys: seq<CString>, vals: seq<CString>, m: map<string, CString>, s: string)
    requires Faithful(st, m) && SlotsShow(keys, vals, m) && s in m && ':' !in s
    ensures var lines := ["", SectionLine(s)] + EntryLines(keys, vals, s) + [""];
            AllPlain(lines) &&
            var r := Fold(st, lines);
            Faithful(r, m) && st.dict.Keys <= r.dict.Keys && s in r.dict && Covers(r, keys, s)
  {
    hide SectionLine, EntryLines, Plain, Normalised, Covers, HasSection, Fold, StepLine;
    var head, entries := ["", SectionLine(s)], EntryLines(keys, vals, s);
    LoadSectionHead(st, m, s);
    var entered := Fold(st, head);
    LoadEntries(entered, keys, vals, m, s);
    FoldConcat(st, head, entries);
    BlankLine();
    FoldSnoc(st, head + entries, "");
    BlankStep(Fold(st, head + entries));
    assert s in entered.dict.Keys;
  }

  lemma BlankStep(st: LoadState)
    requires Ready(st)
    ensures Plain("") && StepLine(st, "") == st
  {}

  lemma {:induction false} LoadSections(st: LoadState, keys: seq<CString>, vals: seq<CString>,
                                        m: map<string, CString>, names: seq<string>)
    requires Faithful(st, m) && SlotsShow(keys, vals, m)
    requires forall i :: 0 <= i < |names| ==> Some(names[i]) in keys && ':' !in names[i]
    ensures AllPlain(AllSectionLines(keys, vals, names))
    ensures var r := Fold(st, AllSectionLines(keys, vals, names));
            Faithful(r, m) && st.dict.Keys <= r.dict.Keys
            && forall i :: 0 <= i < |names| ==> names[i] in r.dict && Covers(r, keys, names[i])
  {
    hide StepLine, Plain, SectionLines, HasSection, Normalised, Covers;
    if names == [] {
    } else {
      var n := |names| - 1;
      var lines, more := AllSectionLines(keys, vals, names[..n]), SectionLines(keys, vals, names[n]);
      LoadSections(st, keys, vals, m, names[..n]);
      var before := Fold(st, lines);
      LoadSection(before, keys, vals, m, names[n]);
      FoldConcat(st, lines, more);
      var r := Fold(st, lines + more);
      forall i | 0 <= i < |names| ensures names[i] in r.dict && Covers(r, keys, names[i]) {
        if i < n {
          assert names[..n][i] == names[i];
          assert names[i] in before.dict.Keys;
          CoversGrow(before, r, keys, names[i]);
        }
      }
    }
  }

  lemma CoversGrow(before: LoadState, after: LoadState, keys: seq<CString>, s: string)
    requires Covers(before, keys, s) && before.dict.Keys <= after.dict.Keys
    ensures Covers(after, keys, s)
  {
    forall i | 0 <= i < |keys| && keys[i].Some? && s + ":" <= keys[i].value ensures keys[i].value in after.dict {
      assert keys[i].value in before.dict.Keys;
    }
  }

  /** A state faithful to the dictionary that covers every section has exactly the dumped entries. */
  lemma CoveredIsDumped(st: LoadState, keys: seq<CString>, m: map<string, CString>)
    requires Faithful(st, m) && forall k :: k in m ==> Some(k) in keys
    requires forall s :: s in Sections(keys) ==> s in st.dict && Covers(st, keys, s)
    requires forall k :: Some(k) in keys ==> k in m
    ensures st.dict == Dumped(m)
  {
    forall k | k in Dumped(m) ensures k in st.dict {
      assert Some(k) in keys;
      if ':' in k {
        var s := SectionPart(k);
        SectionsAre(keys, s);
        PrefixIsSection(s, k);
        var i :| 0 <= i < |keys| && keys[i] == Some(k);
      } else {
        SectionsAre(keys, k);
      }
    }
  }

  /**
    The main result: for a dictionary with a section, in any slot order, loading the dumped text succeeds
    and gives back exactly the sections and the entries whose section is there.
   */
  lemma LoadOfDump(keys: seq<CString>, vals: seq<CString>)
    requires |keys| == |vals| && UniqueKeys(keys) && Normalised(ContentsOf(keys, vals)) && Sections(keys) != []
    ensures LoadOf(Join(DumpLines(keys, vals))) == Some(Dumped(ContentsOf(keys, vals)))
  {
    hide UniqueKeys, ContentsOf, Run, Sections, AllSectionLines, StepLine, Normalised, Plain;
    var m, names := ContentsOf(keys, vals), Sections(keys);
    ContentsAre(keys, vals);
    forall s | s in names ensures Some(s) in keys && ':' !in s { SectionsAre(keys, s); }
    LoadSections(INIT, keys, vals, m, names);
    var lines := AllSectionLines(keys, vals, names);
    FoldSnocBlank(INIT, lines);
    var r := Fold(INIT, lines);
    RunJoin(INIT, lines + [""], "");
    assert Join(lines + [""]) + "" == Join(lines + [""]);
    RunNothing(r);
    forall k | Some(k) in keys ensures k in m {
      var i :| 0 <= i < |keys| && keys[i] == Some(k);
    }
    CoveredIsDumped(r, keys, m);
  }

  lemma FoldSnocBlank(st: LoadState, lines: seq<string>)
    requires Ready(st) && AllPlain(lines)
    ensures AllPlain(lines + [""]) && Fold(st, lines + [""]) == Fold(st, lines)
  {
    BlankStep(Fold(st, lines));
    FoldSnoc(st, lines, "");
  }

  lemma RunNothing(st: LoadState)
    requires Ready(st)
    ensures Run(st, "") == st
  {}

  // ----- dictionaries without sections -----

  /** The condition on an entry that is dumped under its whole key. */
  predicate BareNormal(k: string, v: CString) {
    && v.Some? && EntryOk(k, v.value)
    && '\n' !in k && '\n' !in v.value && |BareLine(k, v)| < MAXLINE
  }

  /** The entries with a colon put before their keys: the empty section's name. */
  ghost function Moved(keys: seq<CString>, vals: seq<CString>): map<string, CString>
    requires |keys| == |vals|
  {
    if keys == [] then map[]
    else
      var n := |keys| - 1;
      var rest := Moved(keys[..n], vals[..n]);
      if keys[n].Some? then rest[":" + keys[n].value := vals[n]] else rest
  }

  lemma {:induction false} MovedAre(keys: seq<CString>, vals: seq<CString>, k: string)
    requires |keys| == |vals|
    ensures ":" + k in Moved(keys, vals) <==> Some(k) in keys
  {
    if keys != [] {
      var n := |keys| - 1;
      MovedAre(keys[..n], vals[..n], k);
      assert keys == keys[..n] + [keys[n]];
      if keys[n].Some? {
        assert (":" + keys[n].value)[1..] == keys[n].value && (":" + k)[1..] == k;
      }
    }
  }

  lemma {:induction false} LoadBare(keys: seq<CString>, vals: seq<CString>)
    requires |keys| == |vals|
    requires forall i :: 0 <= i < |keys| && keys[i].Some? ==> BareNormal(keys[i].value, vals[i])
    ensures AllPlain(BareLines(keys, vals))
    ensures Fold(INIT, BareLines(keys, vals)) == LoadState("", "", Moved(keys, vals), 0, false)
  {
    hide StepLine, Plain, EntryLine, EntryOk, ParseLine, TrimEnd;
    if keys == [] {
    } else {
      var n := |keys| - 1;
      LoadBare(keys[..n], vals[..n]);
      var lines := BareLines(keys[..n], vals[..n]);
      if keys[n].Some? {
        LoadBareLine(lines, keys[n].value, vals[n].value, Moved(keys[..n], vals[..n]));
      } else {
        assert BareLines(keys, vals) == lines;
      }
    }
  }

  lemma LoadBareLine(lines: seq<string>, k: string, v: string, m: map<string, CString>)
    requires AllPlain(lines) && Fold(INIT, lines) == LoadState("", "", m, 0, false)
    requires BareNormal(k, Some(v))
    ensures AllPlain(lines + [EntryLine(0, k, v)])
    ensures Fold(INIT, lines + [EntryLine(0, k, v)]) == LoadState("", "", m[":" + k := Some(v)], 0, false)
  {
    hide StepLine, Plain, EntryLine, EntryOk, ParseLine, TrimEnd, Fold;
    EntryLinePlain(0, k, v, "");
    FoldSnoc(INIT, lines, EntryLine(0, k, v));
    LineStep(Fold(INIT, lines), EntryLine(0, k, v), Entry(k, v));
    assert "" + ":" + k == ":" + k;
  }

  /** Without sections, every entry is loaded under a different key: its own with a colon before it. */
  lemma LoadOfBareDump(keys: seq<CString>, vals: seq<CString>)
    requires |keys| == |vals| && Sections(keys) == []
    requires forall i :: 0 <= i < |keys| && keys[i].Some? ==> BareNormal(keys[i].value, vals[i])
    ensures LoadOf(Join(DumpLines(keys, vals))) == Some(Moved(keys, vals))
  {
    hide BareNormal, Moved, BareLines, Plain, Run;
    LoadBare(keys, vals);
    var lines := BareLines(keys, vals);
    RunJoin(INIT, lines, "");
    assert Join(lines) + "" == Join(lines);
    RunNothing(Fold(INIT, lines));
  }

  lemma {:induction false} LongestKey(keys: seq<CString>) returns (k: string)
    requires exists i :: 0 <= i < |keys| && keys[i].Some?
    ensures Some(k) in keys && forall x :: Some(x) in keys ==> |x| <= |k|
  {
    var n := |keys| - 1;
    assert keys == keys[..n] + [keys[n]];
    if i :| 0 <= i < n && keys[i].Some? {
      assert keys[..n][i].Some?;
      k := LongestKey(keys[..n]);
      if keys[n].Some? && |keys[n].value| > |k| {
        k := keys[n].value;
      }
    } else {
      k := keys[n].value;
    }
  }

  /** So such a dictionary comes back as it was exactly when it is empty. */
  lemma BareRoundTrip(keys: seq<CString>, vals: seq<CString>)
    requires |keys| == |vals| && UniqueKeys(keys) && Sections(keys) == []
    requires forall i :: 0 <= i < |keys| && keys[i].Some? ==> BareNormal(keys[i].value, vals[i])
    ensures var m := ContentsOf(keys, vals); LoadOf(Join(DumpLines(keys, vals))) == Some(m) <==> m == map[]
  {
    hide BareNormal, DumpLines, Sections, UniqueKeys;
    var m := ContentsOf(keys, vals);
    ContentsAre(keys, vals);
    LoadOfBareDump(keys, vals);
    if i :| 0 <= i < |keys| && keys[i].Some? {
      var k := LongestKey(keys);
      MovedAre(keys, vals, k);
      assert Some(":" + k) !in keys;
      assert keys[i].value in m;
    } else {
      MovedNothing(keys, vals);
    }
  }

  lemma {:induction false} MovedNothing(keys: seq<CString>, vals: seq<CString>)
    requires |keys| == |vals| && forall i :: 0 <= i < |keys| ==> keys[i].None?
    ensures Moved(keys, vals) == map[] == ContentsOf(keys, vals)
  {
    if keys != [] {
      MovedNothing(keys[..|keys| - 1], vals[..|keys| - 1]);
    }
  }

  // ----- the round trip -----

  /** A normalised dictionary comes back as it was exactly when every entry's section is an entry too. */
  lemma RoundTrip(keys: seq<CString>, vals: seq<CString>)
    requires |keys| == |vals| && UniqueKeys(keys) && Normalised(ContentsOf(keys, vals))
    requires var m := ContentsOf(keys, vals);
             (exists k :: k in m && ':' !in k) || forall k :: k in m ==> BareNormal(k, m[k])
    ensures var m := ContentsOf(keys, vals);
            LoadOf(Join(DumpLines(keys, vals))) == Some(m) <==> forall k :: k in m ==> HasSection(m, k)
  {
    hide DumpLines, UniqueKeys, Normalised, BareNormal, LoadOf, Join, SectionPart;
    var m := ContentsOf(keys, vals);
    ContentsAre(keys, vals);
    NoSection(keys, vals);
    if Sections(keys) != [] {
      LoadOfDump(keys, vals);
      assert Dumped(m) == m <==> forall k :: k in m ==> HasSection(m, k);
    } else {
      BareRoundTrip(keys, vals);
    }
  }

  /** Sections are listed exactly when some entry is one; without any, no entry's section is there. */
  lemma NoSection(keys: seq<CString>, vals: seq<CString>)
    requires |keys| == |vals| && UniqueKeys(keys)
    ensures var m := ContentsOf(keys, vals);
            && (Sections(keys) == [] <==> forall k :: k in m ==> ':' in k)
            && (Sections(keys) == [] ==> forall k :: k in m ==> !HasSection(m, k))
  {
    ContentsAre(keys, vals);
    var m := ContentsOf(keys, vals);
    forall k | k in m ensures ':' !in k <==> k in Sections(keys) { SectionsAre(keys, k); }
    if Sections(keys) != [] {
      var s := Sections(keys)[0];
      SectionsAre(keys, s);
      var i :| 0 <= i < |keys| && keys[i] == Some(s);
    }
  }
}
