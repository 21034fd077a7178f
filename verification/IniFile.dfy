/** Whole INI files: the dump and the load loop of zc/src/iniparser.c over the dictionary, and their round trip. */
module IniFiles {

  import opened Options
  import opened Dictionaries
  import opened IniLines

  // ----- text as lines -----

  /** The lines, each with its newline. */
  function Join(lines: seq<string>): string {
    if lines == [] then "" else Join(lines[..|lines| - 1]) + lines[|lines| - 1] + "\n"
  }

  lemma {:induction false} JoinConcat(a: seq<string>, b: seq<string>)
    ensures Join(a + b) == Join(a) + Join(b)
  {
    if b == [] {
      assert a + b == a;
    } else {
      assert (a + b)[..|a + b| - 1] == a + b[..|b| - 1];
      JoinConcat(a, b[..|b| - 1]);
    }
  }

  lemma JoinSnoc(a: seq<string>, line: string)
    ensures Join(a + [line]) == Join(a) + line + "\n"
  {
    assert (a + [line])[..|a|] == a;
  }

  // ----- dumping -----

  /** The field width of keys. */
  const KEYWIDTH := 30

  /** The section names, in slot order: the keys without a colon. */
  function Sections(keys: seq<CString>): seq<string> {
    if keys == [] then []
    else
      var m := |keys| - 1;
      Sections(keys[..m]) + if keys[m].Some? && ':' !in keys[m].value then [keys[m].value] else []
  }

  /** The lines of a section's entries, in slot order. */
  function EntryLines(keys: seq<CString>, vals: seq<CString>, s: string): seq<string>
    requires |keys| == |vals|
  {
    if keys == [] then []
    else
      var m := |keys| - 1;
      EntryLines(keys[..m], vals[..m], s) +
      if keys[m].Some? && s + ":" <= keys[m].value
      then [EntryLine(KEYWIDTH, keys[m].value[|s| + 1..], if vals[m].Some? then vals[m].value else "")]
      else []
  }

  /** What the dump loop prints for one more slot. */
  lemma EntryLinesStep(keys: seq<CString>, vals: seq<CString>, s: string, head: seq<string>, j: nat)
    requires |keys| == |vals| && j < |keys|
    ensures Join(head + EntryLines(keys[..j + 1], vals[..j + 1], s)) ==
            Join(head + EntryLines(keys[..j], vals[..j], s)) +
            if keys[j].Some? && s + ":" <= keys[j].value
            then EntryLine(KEYWIDTH, keys[j].value[|s| + 1..], if vals[j].Some? then vals[j].value else "") + "\n"
            else ""
  {
    hide EntryLine;
    assert keys[..j + 1][..j] == keys[..j] && vals[..j + 1][..j] == vals[..j];
    var before := head + EntryLines(keys[..j], vals[..j], s);
    if keys[j].Some? && s + ":" <= keys[j].value {
      var line := EntryLine(KEYWIDTH, keys[j].value[|s| + 1..], if vals[j].Some? then vals[j].value else "");
      assert head + EntryLines(keys[..j + 1], vals[..j + 1], s) == before + [line];
      JoinSnoc(before, line);
    } else {
      assert head + EntryLines(keys[..j + 1], vals[..j + 1], s) == before;
    }
  }

  /** The lines of one section; nothing if its lower-case name is no entry. */
  function SectionLines(keys: seq<CString>, vals: seq<CString>, s: string): seq<string>
    requires |keys| == |vals|
  {
    if Some(Lower(Cut(s))) !in keys then [] else ["", SectionLine(s)] + EntryLines(keys, vals, s) + [""]
  }

  function AllSectionLines(keys: seq<CString>, vals: seq<CString>, names: seq<string>): seq<string>
    requires |keys| == |vals|
  {
    if names == [] then []
    else AllSectionLines(keys, vals, names[..|names| - 1]) + SectionLines(keys, vals, names[|names| - 1])
  }

  /** Without sections, every entry under its whole key; a NULL value prints as glibc prints it. */
  function BareLines(keys: seq<CString>, vals: seq<CString>): seq<string>
    requires |keys| == |vals|
  {
    if keys == [] then []
    else
      var m := |keys| - 1;
      BareLines(keys[..m], vals[..m]) +
      if keys[m].Some? then [BareLine(keys[m].value, vals[m])] else []
  }

  function BareLine(key: string, v: CString): string {
    EntryLine(0, key, if v.Some? then v.value else "(null)")
  }

  lemma BareLineIs(key: string, v: CString)
    ensures BareLine(key, v) == key + " = " + if v.Some? then v.value else "(null)"
  {
    assert key + Spaces(0) == key;
  }

  lemma BareLinesStep(keys: seq<CString>, vals: seq<CString>, j: nat)
    requires |keys| == |vals| && j < |keys|
    ensures Join(BareLines(keys[..j + 1], vals[..j + 1])) ==
            Join(BareLines(keys[..j], vals[..j])) +
            if keys[j].Some? then BareLine(keys[j].value, vals[j]) + "\n" else ""
  {
    assert keys[..j + 1][..j] == keys[..j] && vals[..j + 1][..j] == vals[..j];
    if keys[j].Some? {
      hide BareLine;
      JoinSnoc(BareLines(keys[..j], vals[..j]), BareLine(keys[j].value, vals[j]));
    } else {
      assert BareLines(keys[..j + 1], vals[..j + 1]) == BareLines(keys[..j], vals[..j]);
    }
  }

  function DumpLines(keys: seq<CString>, vals: seq<CString>): seq<string>
    requires |keys| == |vals|
  {
    var names := Sections(keys);
    if names == [] then BareLines(keys, vals) else AllSectionLines(keys, vals, names) + [""]
  }

  /** iniparser_getnsec. */
  method GetNSec(d: Dictionary) returns (nsec: nat)
    requires d.Valid()
    ensures nsec == |Sections(d.key[..])|
  {
    nsec := 0;
    for i := 0 to d.size
      invariant nsec == |Sections(d.key[..i])|
    {
      assert d.key[..i + 1][..i] == d.key[..i];
      if d.key[i].Some? && ':' !in d.key[i].value {
        nsec := nsec + 1;
      }
    }
    assert d.key[..d.size] == d.key[..];
  }

  lemma {:induction false} SectionsGrow(keys: seq<CString>, i: nat)
    requires i <= |keys|
    ensures Sections(keys[..i]) <= Sections(keys)
    decreases |keys|
  {
    if i == |keys| {
      assert keys[..i] == keys;
    } else {
      var m := |keys| - 1;
      SectionsGrow(keys[..m], i);
      assert keys[..m][..i] == keys[..i];
    }
  }

  /** iniparser_getsecname. */
  method GetSecName(d: Dictionary, n: int) returns (name: CString)
    requires d.Valid()
    ensures name == if 0 <= n < |Sections(d.key[..])| then Some(Sections(d.key[..])[n]) else None
  {
    if n < 0 {
      return None;
    }
    var foundsec := 0;
    var i := 0;
    while i < d.size
      invariant i <= d.size && foundsec == |Sections(d.key[..i])| && foundsec <= n
    {
      assert d.key[..i + 1][..i] == d.key[..i];
      if d.key[i].Some? && ':' !in d.key[i].value {
        foundsec := foundsec + 1;
        if foundsec > n {
          SectionsGrow(d.key[..], i + 1);
          assert d.key[..][..i + 1] == d.key[..i + 1];
          return d.key[i];
        }
      }
      i := i + 1;
    }
    assert d.key[..d.size] == d.key[..];
    return None;
  }

  /** iniparser_find_entry. */
  method FindEntry(d: Dictionary, entry: string) returns (found: bool)
    requires d.Valid()
    ensures found <==> Some(Lower(Cut(entry))) in d.key[..]
  {
    var lc := StrLwc(entry);
    var i := d.FindSlot(lc);
    found := i < d.size;
    assert found ==> d.key[..][i] == Some(lc);
  }

  /** iniparser_dumpsection_ini, returning what it prints. */
  method DumpSection(d: Dictionary, s: string) returns (text: string)
    requires d.Valid()
    ensures text == Join(SectionLines(d.key[..], d.val[..], s))
  {
    var found := FindEntry(d, s);
    if found {
      text := DumpFound(d, s);
    } else {
      text := "";
    }
  }

  /** The prints for a section that is there. */
  method DumpFound(d: Dictionary, s: string) returns (text: string)
    requires d.Valid()
    ensures text == Join(["", SectionLine(s)] + EntryLines(d.key[..], d.val[..], s) + [""])
  {
    hide Join, EntryLine, EntryLines, SectionLine, UniqueKeys, SlotsOk, Occupied;
    ghost var keys, vals, head := d.key[..], d.val[..], ["", SectionLine(s)];
    text := "\n" + SectionLine(s) + "\n";
    NoLines(s);
    SectionHead(SectionLine(s), EntryLines(keys[..0], vals[..0], s));
    var keym := s + ":";
    for j := 0 to d.size
      invariant text == Join(head + EntryLines(keys[..j], vals[..j], s))
    {
      EntryLinesStep(keys, vals, s, head, j);
      if d.key[j].Some? && keym <= d.key[j].value {
        var line := EntryLine(KEYWIDTH, d.key[j].value[|s| + 1..], if d.val[j].Some? then d.val[j].value else "");
        text := text + line + "\n";
      }
    }
    assert keys[..d.size] == keys && vals[..d.size] == vals;
    text := text + "\n";
    JoinSnoc(head + EntryLines(keys, vals, s), "");
  }

  lemma SectionHead(line: string, none: seq<string>)
    requires none == []
    ensures Join(["", line] + none) == "\n" + line + "\n"
  {
    JoinSnoc([], "");
    JoinSnoc([""], line);
    assert ["", line] + none == [""] + [line];
    assert [""] == [] + [""];
  }

  lemma NoLines(s: string)
    ensures Join([]) == "" && BareLines([], []) == [] == EntryLines([], [], s)
  {}

  /** iniparser_dump_ini. */
  method DumpIni(d: Dictionary) returns (text: string)
    requires d.Valid()
    ensures text == Join(DumpLines(d.key[..], d.val[..]))
  {
    hide Join, BareLines, Sections, SectionLines, BareLine;
    ghost var keys, vals := d.key[..], d.val[..];
    assert keys[..0] == [] && vals[..0] == [];
    NoLines("");
    var nsec := GetNSec(d);
    text := "";
    if nsec < 1 {
      for i := 0 to d.size
        invariant text == Join(BareLines(keys[..i], vals[..i]))
      {
        BareLinesStep(keys, vals, i);
        if d.key[i].Some? {
          BareLineIs(d.key[i].value, d.val[i]);
          var v := if d.val[i].Some? then d.val[i].value else "(null)";
          text := text + (d.key[i].value + " = " + v) + "\n";
        }
      }
      assert d.key[..d.size] == keys && d.val[..d.size] == vals;
      return;
    }
    ghost var names := Sections(keys);
    for i := 0 to nsec
      invariant text == Join(AllSectionLines(keys, vals, names[..i]))
    {
      var secname := GetSecName(d, i);
      var part := DumpSection(d, secname.value);
      text := text + part;
      assert names[..i + 1][..i] == names[..i];
      JoinConcat(AllSectionLines(keys, vals, names[..i]), SectionLines(keys, vals, names[i]));
    }
    assert names[..nsec] == names;
    text := text + "\n";
    JoinSnoc(AllSectionLines(keys, vals, names), "");
  }

  // ----- loading -----

  /** The loader between two reads. errs counts the syntax errors since the last entry that was stored. */
  datatype LoadState = LoadState(
    section: string,
    pending: string,
    dict: map<string, CString>,
    errs: nat,
    tooLong: bool)

  const INIT := LoadState("", "", map[], 0, false)

  /** The most characters that fit in the line buffer. */
  const MAXLINE := ASCIILINESZ - 1

  /** What fgets takes: through the first newline, but no more than cap characters. */
  function ReadLength(text: string, cap: nat): (n: nat)
    requires text != [] && cap > 0
    ensures 0 < n <= |text| && n <= cap
  {
    var e := RunEnd(text, 0, {'\n'});
    var full := if e < |text| then e + 1 else e;
    if full <= cap then full else cap
  }

  /** A read holds no newline but its last character, and stops early only behind one or at the end of the file. */
  lemma ReadLengthIs(text: string, cap: nat)
    requires text != [] && cap > 0
    ensures var n := ReadLength(text, cap);
            && (forall i :: 0 <= i < n - 1 ==> text[i] != '\n')
            && (n == cap || n == |text| || text[n - 1] == '\n')
  {}

  /** The switch on the parsed line; memory never runs out, so every dictionary_set returns 0. */
  function Apply(st: LoadState, p: Parsed): LoadState {
    match p
    case Empty => st.(pending := "")
    case Comment => st.(pending := "")
    case Section(name) => st.(pending := "", section := name, dict := st.dict[name := None], errs := 0)
    case Entry(k, v) => st.(pending := "", dict := st.dict[st.section + ":" + k := Some(v)], errs := 0)
    case Error => st.(pending := "", errs := st.errs + 1)
  }

  /** One turn of the load loop on a piece of text read behind the pending line. */
  function Step(st: LoadState, piece: string): (r: LoadState)
    requires piece != [] && |st.pending| + |piece| <= MAXLINE
    ensures !r.tooLong ==> |r.pending| <= MAXLINE - 2
  {
    var line := st.pending + piece;
    if |line| == 1 then st
    else if line[|line| - 1] != '\n' then st.(tooLong := true)
    else
      match ReadLine(line, st.section)
      case None =>
        TrimNewline(line[..|line| - 1]);
        assert line == line[..|line| - 1] + "\n";
        var kept := TrimEnd(line);
        st.(pending := kept[..|kept| - 1])
      case Some(p) => Apply(st, p)
  }

  lemma TrimNewline(line: string)
    ensures TrimEnd(line + "\n") == TrimEnd(line) && |TrimEnd(line)| <= |line|
  {
    assert (line + "\n")[..|line|] == line;
    TrimEndFacts(line);
  }

  /** The load loop on the rest of the file. */
  function Run(st: LoadState, text: string): LoadState
    requires !st.tooLong ==> |st.pending| <= MAXLINE - 2
    decreases |text|
  {
    if st.tooLong || text == [] then st
    else
      var n := ReadLength(text, MAXLINE - |st.pending|);
      Run(Step(st, text[..n]), text[n..])
  }

  /** The dictionary, or None where iniparser_load returns NULL. */
  function Outcome(st: LoadState): Option<map<string, CString>> {
    if st.tooLong || st.errs != 0 then None else Some(st.dict)
  }

  function LoadOf(text: string): Option<map<string, CString>> {
    Outcome(Run(INIT, text))
  }

  lemma RunStep(st: LoadState, text: string, n: nat)
    requires !st.tooLong && |st.pending| <= MAXLINE - 2 && text != []
    requires n == ReadLength(text, MAXLINE - |st.pending|)
    ensures Run(st, text) == Run(Step(st, text[..n]), text[n..])
  {}

  /** The switch of the load loop. */
  method Store(dict: Dictionary, section: string, errs: int, p: Parsed) returns (section': string, errs': int)
    requires dict.Valid() && errs >= 0
    modifies dict, dict.key, dict.val, dict.hash
    ensures dict.Valid()
    ensures dict.key == old(dict.key) || fresh(dict.key)
    ensures dict.val == old(dict.val) || fresh(dict.val)
    ensures dict.hash == old(dict.hash) || fresh(dict.hash)
    ensures errs' >= 0
    ensures LoadState(section', "", dict.Contents(), errs', false) ==
            Apply(LoadState(section, "", old(dict.Contents()), errs, false), p)
  {
    section', errs' := section, errs;
    match p {
      case Section(name) =>
        section' := name;
        errs' := dict.Set(Some(name), None);
      case Entry(k, v) =>
        var tmp := section + ":" + k;
        errs' := dict.Set(Some(tmp), Some(v));
      case Error =>
        errs' := errs + 1;
      case Empty =>
      case Comment =>
    }
  }

  /** A logical line is parsed and stored. */
  method TakeLine(dict: Dictionary, section: string, errs: int, line: string) returns (section': string, errs': int)
    requires dict.Valid() && errs >= 0
    modifies dict, dict.key, dict.val, dict.hash
    ensures dict.Valid()
    ensures dict.key == old(dict.key) || fresh(dict.key)
    ensures dict.val == old(dict.val) || fresh(dict.val)
    ensures dict.hash == old(dict.hash) || fresh(dict.hash)
    ensures errs' >= 0
    ensures LoadState(section', "", dict.Contents(), errs', false) ==
            Apply(LoadState(section, "", old(dict.Contents()), errs, false), ParseLine(line, section))
  {
    hide ParseLine, Apply, UniqueKeys, SlotsOk, ContentsOf, Occupied;
    var p := IniparserLine(line, section);
    section', errs' := Store(dict, section, errs, p);
  }

  lemma ApplyForgetsPending(st: LoadState, p: Parsed)
    ensures Apply(st, p) == Apply(st.(pending := ""), p)
  {}

  /** A turn of the loop, in the order in which the code decides. */
  lemma StepCases(st: LoadState, piece: string, line: string)
    requires piece != [] && line == st.pending + piece && |line| <= MAXLINE
    ensures |line| == 1 ==> Step(st, piece) == st
    ensures |line| > 1 && line[|line| - 1] != '\n' ==> Step(st, piece) == st.(tooLong := true)
    ensures var s := TrimEnd(line);
            |line| > 1 && line[|line| - 1] == '\n' ==>
              && |s| < |line|
              && Step(st, piece) ==
                 if s != [] && s[|s| - 1] == '\\' then st.(pending := s[..|s| - 1])
                 else Apply(st.(pending := ""), ParseLine(s, st.section))
  {
    hide ParseLine, TrimEnd, Apply;
    ApplyForgetsPending(st, ParseLine(TrimEnd(line), st.section));
    TrimNewline(line[..|line| - 1]);
    assert line[|line| - 1] == '\n' ==> line == line[..|line| - 1] + "\n";
  }

  /** A line that is too long makes iniparser_load return NULL. */
  lemma TooLongFails(st: LoadState, text: string)
    requires st.tooLong
    ensures Outcome(Run(st, text)).None?
  {}

  /** iniparser_load on the text of the file. */
  method Load(text: string) returns (d: Dictionary?)
    ensures d == null <==> LoadOf(text).None?
    ensures d != null ==> fresh(d) && d.Valid() && Some(d.Contents()) == LoadOf(text)
  {
    hide ReadLength, TrimEnd, ParseLine, Apply, Step, ReadLine, RunEnd, UniqueKeys, SlotsOk, ContentsOf, Occupied;
    var dict := new Dictionary(0);
    var section, line, last, errs := "", "", 0, 0;
    var pos := 0;
    assert text[0..] == text && line[..0] == "";
    while pos < |text|
      invariant 0 <= pos <= |text| && 0 <= last <= |line| && last <= MAXLINE - 2 && errs >= 0
      invariant dict.Valid() && fresh(dict) && fresh(dict.key) && fresh(dict.val) && fresh(dict.hash)
      invariant Run(LoadState(section, line[..last], dict.Contents(), errs, false), text[pos..]) == Run(INIT, text)
      decreases |text| - pos
    {
      hide Run;
      ghost var st := LoadState(section, line[..last], dict.Contents(), errs, false);
      var n := ReadLength(text[pos..], MAXLINE - last);
      RunStep(st, text[pos..], n);
      assert text[pos..][..n] == text[pos..pos + n] && text[pos..][n..] == text[pos + n..];
      line := line[..last] + text[pos..pos + n];
      StepCases(st, text[pos..pos + n], line);
      pos := pos + n;
      var len := |line| - 1;
      if len == 0 {
        assert line[..last] == st.pending;
        continue;
      }
      if line[len] != '\n' {
        TooLongFails(st.(tooLong := true), text[pos..]);
        return null;
      }
      line := TrimEnd(line);
      if line != [] && line[|line| - 1] == '\\' {
        last := |line| - 1;
        continue;
      }
      section, errs := TakeLine(dict, section, errs, line);
      line, last := "", 0;
    }
    assert text[pos..] == [];
    d := if errs != 0 then null else dict;
  }
}
