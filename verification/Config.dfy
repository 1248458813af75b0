/** The configuration overlay: two files, nearest over global, under the command line. */
module Config {
  import opened Bytes
  import opened Decimal
  import opened ObjectBuilder
  import Governor

  datatype Toml = Boolean(b: bool) | Integer(n: int) | Text(s: string) | Other

  /** A table of the file format iterates its keys in alphabetical order. */
  type Table = seq<Entry<Toml>>

  datatype Kind = Bool | Indentation | OutputFormat | Number | MaxRss | Workers | MismatchPolicy | Strictness

  datatype Indent = Compact | Tabs | Spaces(width: nat)

  datatype Width = Auto | Explicit(width: nat)

  datatype Setting =
    | Flag(b: bool)
    | Format(name: string)
    | Count(n: nat)
    | Ceiling(dial: Governor.MaxRss)
    | Threads(width: Width)
    | Policy(name: string)

  const WORKER_HARD_CAP: nat := 256

  function KindOf(key: string): Option<Kind>
  {
    match key
    case "color" => Some(Bool)
    case "compact" => Some(Bool)
    case "compact-output" => Some(Bool)
    case "indent" => Some(Indentation)
    case "tab" => Some(Bool)
    case "output-format" => Some(OutputFormat)
    case "max-memory-bytes" => Some(Number)
    case "max-rss" => Some(MaxRss)
    case "max-spill-bytes" => Some(Number)
    case "max-spill-disk-bytes" => Some(Number)
    case "parallel" => Some(Bool)
    case "workers" => Some(Workers)
    case "diagnostics" => Some(Bool)
    case "explain" => Some(Bool)
    case "unbuffered" => Some(Bool)
    case "mismatch-policy" => Some(MismatchPolicy)
    case "strictness" => Some(Strictness)
    case _ => None
  }

  /** The keys that share one setting. */
  predicate Family(key: string)
  {
    key == "compact" || key == "compact-output" || key == "indent" || key == "tab"
  }

  // ----- Values -----

  function IntegerText(n: int): string { if n < 0 then "-" + Digits(-n) else Digits(n) }

  function DialText(value: Toml): Option<string>
  {
    match value
    case Integer(n) => Some(IntegerText(n))
    case Text(s) => Some(s)
    case _ => None
  }

  /** `N%`, or bytes with an optional suffix; zero bytes disable. */
  function ParseMaxRss(value: string): Option<Governor.MaxRss>
  {
    var n := |value| - 1;
    if value != [] && value[n] == '%' then
      match ParseU64(value[..n])
      case Some(percent) => if percent == 0 then None else Some(Governor.Percent(percent))
      case None => None
    else
      var suffix := if value == [] then ' ' else value[n];
      var scale := if suffix in ['k', 'K'] then 0x400 else if suffix in ['m', 'M'] then 0x10_0000
                   else if suffix in ['g', 'G'] then 0x4000_0000 else 1;
      match ParseU64(if scale == 1 then value else value[..n])
      case Some(bytes) =>
        if bytes * scale >= U64 then None
        else if bytes * scale == 0 then Some(Governor.Disabled)
        else Some(Governor.Bytes(bytes * scale))
      case None => None
  }

  function ParseWorkers(value: string): Option<Width>
  {
    if value == "auto" then Some(Auto)
    else
      match ParseU64(value)
      case Some(n) => if n == 0 || n > WORKER_HARD_CAP then None else Some(Explicit(n))
      case None => None
  }

  /** An ordinary key's setting; a value of the wrong type has none. */
  function Coerce(kind: Kind, value: Toml): Option<Setting>
  {
    match kind
    case Bool => if value.Boolean? then Some(Flag(value.b)) else None
    case Indentation => None
    case OutputFormat =>
      if value.Text? && value.s in ["json", "ndjson", "json-seq"] then Some(Format(value.s)) else None
    case Number => if value.Integer? && value.n >= 0 then Some(Count(value.n)) else None
    case MaxRss =>
      (match DialText(value)
       case None => None
       case Some(text) => match ParseMaxRss(text) case None => None case Some(dial) => Some(Ceiling(dial)))
    case Workers =>
      (match DialText(value)
       case None => None
       case Some(text) => match ParseWorkers(text) case None => None case Some(width) => Some(Threads(width)))
    case MismatchPolicy =>
      if value.Text? && value.s in ["lenient", "warn", "strict"] then Some(Policy(value.s)) else None
    case Strictness =>
      if value.Text? && value.s in ["error", "warn", "strict", "lenient"] then Some(Policy(value.s)) else None
  }

  /** What a family key says: an indentation, or that there is none; a value of the wrong type says nothing. */
  function Says(key: string, value: Toml): Option<Option<Indent>>
  {
    if key == "indent" then
      if !value.Integer? then None
      else if value.n == -1 then Some(Some(Tabs))
      else if 0 <= value.n <= 7 then Some(Some(Spaces(value.n)))
      else None
    else if !value.Boolean? then None
    else Some(if value.b then Some(if key == "tab" then Tabs else Compact) else None)
  }

  predicate Typed(e: Entry<Toml>)
  {
    if Family(e.key) then Says(e.key, e.value).Some?
    else KindOf(e.key).Some? ==> Coerce(KindOf(e.key).value, e.value).Some?
  }

  /** A written integer means itself, through its text. */
  lemma IntegerDials(n: int)
    requires n < 0x8000_0000_0000_0000
    ensures Coerce(MaxRss, Integer(n)) ==
            if n < 0 then None else Some(Ceiling(if n == 0 then Governor.Disabled else Governor.Bytes(n)))
    ensures Coerce(Workers, Integer(n)) == if 1 <= n <= 256 then Some(Threads(Explicit(n))) else None
  {
    hide Digits, ParseMaxRss, ParseWorkers, ParseU64;
    if n < 0 {
      NegativeDial(Digits(-n));
    } else {
      DigitsDenote(n);
      ParseDigits(n);
      PlainDial(Digits(n), n);
    }
  }

  lemma PlainDial(text: string, n: nat)
    requires text != [] && AllDigits(text) && ParseU64(text) == Some(n)
    ensures ParseMaxRss(text) == Some(if n == 0 then Governor.Disabled else Governor.Bytes(n))
    ensures ParseWorkers(text) == if 1 <= n <= WORKER_HARD_CAP then Some(Explicit(n)) else None
  {
    assert IsDigit(text[|text| - 1]) && IsDigit(text[0]);
    ParseU64Fits(text);
  }

  lemma ParseU64Fits(text: string)
    ensures ParseU64(text).Some? ==> ParseU64(text).value < U64
  {
  }

  lemma NegativeDial(digits: string)
    requires digits != []
    ensures ParseMaxRss("-" + digits) == None && ParseWorkers("-" + digits) == None
  {
    var text := "-" + digits;
    MinusIsNoNumber(digits, |text|);
    MinusIsNoNumber(digits, |digits|);
    assert text[..|text|] == text && text[0] == '-';
    hide ParseU64;
  }

  lemma MinusIsNoNumber(digits: string, n: nat)
    requires digits != [] && 0 < n <= |digits| + 1
    ensures ParseU64(("-" + digits)[..n]) == None
  {
    var text := ("-" + digits)[..n];
    assert text[0] == '-' && !IsDigit(text[0]);
  }

  // ----- One file -----

  ghost predicate Sorted(table: Table)
  {
    forall i, k :: 0 <= i < k < |table| ==> Before(table[i].key, table[k].key)
  }

  function Lookup(table: Table, key: string): Option<Toml>
  {
    if table == [] then None
    else if table[|table| - 1].key == key then Some(table[|table| - 1].value)
    else Lookup(table[..|table| - 1], key)
  }

  /** The alphabetically last family key of a table. */
  function LastFamilyKey(table: Table): Option<string>
  {
    if Lookup(table, "tab").Some? then Some("tab")
    else if Lookup(table, "indent").Some? then Some("indent")
    else if Lookup(table, "compact-output").Some? then Some("compact-output")
    else if Lookup(table, "compact").Some? then Some("compact")
    else None
  }

  predicate AllTyped(table: Table) { forall k :: 0 <= k < |table| ==> Typed(table[k]) }

  /** What one table makes of an ordinary key. */
  function TableSetting(table: Table, key: string): (r: Option<Setting>)
  {
    if Family(key) || KindOf(key).None? || Lookup(table, key).None? then None
    else Coerce(KindOf(key).value, Lookup(table, key).value)
  }

  function Or<T>(a: Option<T>, b: Option<T>): Option<T> { if a.Some? then a else b }

  /** What one table makes of the indentation: its last family key speaks, also when it says there is none. */
  function TableIndent(table: Table, before: Option<Indent>): Option<Indent>
  {
    match LastFamilyKey(table)
    case None => before
    case Some(key) =>
      match Lookup(table, key)
      case Some(value) => (match Says(key, value) case Some(indent) => indent case None => before)
      case None => before
  }

  /** The indentation after applying the entries in their order. */
  function IndentAfter(before: Option<Indent>, table: Table): Option<Indent>
  {
    if table == [] then before
    else
      var last := table[|table| - 1];
      if Family(last.key) && Says(last.key, last.value).Some? then Says(last.key, last.value).value
      else IndentAfter(before, table[..|table| - 1])
  }

  lemma {:induction false} LookupAt(table: Table, k: nat)
    requires k < |table| && forall i, j :: 0 <= i < j < |table| ==> table[i].key != table[j].key
    ensures Lookup(table, table[k].key) == Some(table[k].value)
  {
    if k < |table| - 1 {
      LookupAt(table[..|table| - 1], k);
    }
  }

  lemma {:induction false} LookupFinds(table: Table, key: string)
    requires Lookup(table, key).Some?
    ensures exists k :: 0 <= k < |table| && table[k].key == key
  {
    var n := |table| - 1;
    if table[n].key != key {
      LookupFinds(table[..n], key);
      var k :| 0 <= k < n && table[..n][k].key == key;
      assert table[k].key == key;
    }
  }

  lemma FamilyOrder()
    ensures Before("compact", "compact-output") && Before("compact-output", "indent") && Before("indent", "tab")
    ensures Before("compact", "indent") && Before("compact", "tab") && Before("compact-output", "tab")
  {
    BeforeLonger("compact", "-output");
    assert "compact" + "-output" == "compact-output";
  }

  /** Because a table iterates alphabetically, its last family entry is its alphabetically last family key. */
  lemma {:induction false} LastFamilySpeaks(before: Option<Indent>, table: Table)
    requires Sorted(table) && AllTyped(table)
    ensures IndentAfter(before, table) == TableIndent(table, before)
  {
    hide Before, Says, Lookup, LastFamilyKey, Coerce, KindOf;
    if table == [] {
      NoTable();
    } else {
      var n := |table| - 1;
      if Family(table[n].key) {
        LastFamilyIs(table);
        SortedDistinct(table);
        LookupAt(table, n);
        assert Typed(table[n]);
      } else {
        SortedInit(table);
        LastFamilySpeaks(before, table[..n]);
        OtherKeyLast(before, table);
      }
    }
  }

  lemma SortedInit(table: Table)
    requires table != [] && Sorted(table) && AllTyped(table)
    ensures Sorted(table[..|table| - 1]) && AllTyped(table[..|table| - 1])
  {
    hide Before, Typed;
  }

  lemma OtherKeyLast(before: Option<Indent>, table: Table)
    requires table != [] && !Family(table[|table| - 1].key)
    ensures TableIndent(table, before) == TableIndent(table[..|table| - 1], before)
  {
    hide Says;
  }

  lemma LastFamilyIs(table: Table)
    requires table != [] && Sorted(table) && Family(table[|table| - 1].key)
    ensures LastFamilyKey(table) == Some(table[|table| - 1].key)
  {
    hide Before, Sorted;
    LastIsLast(table, "compact");
    LastIsLast(table, "compact-output");
    LastIsLast(table, "indent");
    LastIsLast(table, "tab");
    FamilyOrder();
  }

  lemma SortedDistinct(table: Table)
    requires Sorted(table)
    ensures forall i, k :: 0 <= i < k < |table| ==> table[i].key != table[k].key
  {
    forall i, k | 0 <= i < k < |table|
      ensures table[i].key != table[k].key
    {
      BeforeStrict(table[i].key, table[k].key);
    }
  }

  /** No key of a sorted table lies behind its last one. */
  lemma LastIsLast(table: Table, key: string)
    requires table != [] && Sorted(table)
    ensures Lookup(table, key).Some? ==> !Before(table[|table| - 1].key, key)
  {
    if Lookup(table, key).Some? {
      LookupFinds(table, key);
      var k :| 0 <= k < |table| && table[k].key == key;
      if k < |table| - 1 {
        BeforeStrict(key, table[|table| - 1].key);
      } else if Before(key, key) {
        BeforeStrict(key, key);
      }
    }
  }

  // ----- The merged view -----

  /** One setting per ordinary key, and the family's one. */
  class ConfigView {
    var settings: map<string, Setting>
    var indent: Option<Indent>

    constructor ()
      ensures indent == None && forall key :: Get(key) == None
    {
      settings := map[];
      indent := None;
    }

    function Get(key: string): Option<Setting>
      reads this
    {
      if key in settings then Some(settings[key]) else None
    }

    /** One key of the defaults section: a known key is coerced into the view, an unknown one has no effect. */
    method ApplyKey(e: Entry<Toml>) returns (ok: bool)
      modifies this
      ensures ok <==> Typed(e)
      ensures ok ==> forall key :: Get(key) == Or(TableSetting([e], key), old(Get(key)))
      ensures ok ==> indent == IndentAfter(old(indent), [e])
    {
      OneEntry(e);
      var kind := KindOf(e.key);
      if kind.None? {
        return true;
      }
      if Family(e.key) {
        var said := Says(e.key, e.value);
        if said.None? {
          return false;
        }
        indent := said.value;
        return true;
      }
      var setting := Coerce(kind.value, e.value);
      if setting.None? {
        return false;
      }
      settings := settings[e.key := setting.value];
      return true;
    }

    /** A defaults section, key by key; the first mistyped known key fails the request. */
    method ReadDefaults(table: Table) returns (ok: bool)
      requires Sorted(table)
      modifies this
      ensures ok <==> AllTyped(table)
      ensures ok ==> forall key :: Get(key) == Or(TableSetting(table, key), old(Get(key)))
      ensures ok ==> indent == TableIndent(table, old(indent))
    {
      hide KindOf, Coerce, Says, Typed, Before;
      ghost var before := indent;
      for k := 0 to |table|
        invariant AllTyped(table[..k])
        invariant forall key :: Get(key) == Or(TableSetting(table[..k], key), old(Get(key)))
        invariant indent == IndentAfter(before, table[..k])
      {
        assert table[..k + 1] == table[..k] + [table[k]];
        ghost var was := settings;
        ok := ApplyKey(table[k]);
        if !ok {
          return;
        }
        SettingsAppend(table[..k], table[k]);
        IndentAppend(before, table[..k], table[k]);
      }
      assert table[..|table|] == table;
      LastFamilySpeaks(before, table);
      return true;
    }

    /** A whole file: only its defaults section has effects. */
    method ReadConfigFile(file: ConfigFile) returns (ok: bool)
      requires file.Valid()
      modifies this
      ensures ok <==> file.Usable()
      ensures match file
              case Broken => !ok
              case Parsed(Absent) => ok
              case Parsed(NotATable) => !ok
              case Parsed(Section(table)) => ok <==> AllTyped(table)
      ensures ok ==> forall key :: Get(key) == Or(TableSetting(file.Defaults(), key), old(Get(key)))
      ensures ok ==> indent == TableIndent(file.Defaults(), old(indent))
      ensures match file
              case Parsed(Section(table)) => file.Defaults() == table
              case _ => file.Defaults() == []
    {
      if file.Broken? {
        return false;
      }
      match file.defaults
      case Absent =>
        return true;
      case NotATable =>
        return false;
      case Section(table) =>
        ok := ReadDefaults(table);
    }
  }

  datatype Defaults = Absent | NotATable | Section(table: Table)

  /** A file that cannot be read or parsed, or its defaults section; the other sections only warn. */
  datatype ConfigFile = Broken | Parsed(defaults: Defaults)
  {
    ghost predicate Valid() { Parsed? && defaults.Section? ==> Sorted(defaults.table) }

    predicate Usable() { Parsed? && !defaults.NotATable? && AllTyped(Defaults()) }

    function Defaults(): Table { if Parsed? && defaults.Section? then defaults.table else [] }
  }

  /** The table of an optional file. */
  function TableOf(file: Option<ConfigFile>): Table { if file.Some? then file.value.Defaults() else [] }

  lemma OneEntry(e: Entry<Toml>)
    ensures forall key :: Lookup([e], key) == if e.key == key then Some(e.value) else None
    ensures forall before :: IndentAfter(before, [e]) ==
              if Family(e.key) && Says(e.key, e.value).Some? then Says(e.key, e.value).value else before
    ensures Family(e.key) ==> KindOf(e.key).Some?
  {
    assert [e][..0] == [];
  }

  lemma SettingsAppend(table: Table, e: Entry<Toml>)
    ensures forall key :: TableSetting(table + [e], key) ==
              if e.key == key then TableSetting([e], key) else TableSetting(table, key)
    ensures forall key :: e.key != key ==> TableSetting([e], key) == None
    ensures Typed(e) && TableSetting([e], e.key) == None ==> TableSetting(table, e.key) == None
  {
    OneEntry(e);
    assert (table + [e])[..|table|] == table;
  }

  lemma IndentAppend(before: Option<Indent>, table: Table, e: Entry<Toml>)
    ensures IndentAfter(before, table + [e]) == IndentAfter(IndentAfter(before, table), [e])
  {
    assert (table + [e])[..|table|] == table && [e][..0] == [];
  }

  /** What one file alone would set. */
  function FileSetting(file: Option<ConfigFile>, key: string): Option<Setting> { TableSetting(TableOf(file), key) }

  function FileIndent(file: Option<ConfigFile>): Option<Indent> { TableIndent(TableOf(file), None) }

  predicate HasFamilyKey(file: Option<ConfigFile>) { LastFamilyKey(TableOf(file)).Some? }

  predicate Readable(file: Option<ConfigFile>) { file.Some? ==> file.value.Usable() }

  /** What the configuration is to a run: whether it can be read, each key's setting, and the indentation. */
  datatype Source = Source(readable: bool, get: string -> Option<Setting>, indent: Option<Indent>)

  const NOTHING := Source(true, key => None, None)

  function Alone(file: ConfigFile): Source
  {
    Source(file.Usable(), key => FileSetting(Some(file), key), FileIndent(Some(file)))
  }

  /** The nearest file over the global one. */
  function Overlay(global: Option<ConfigFile>, nearest: Option<ConfigFile>): Source
  {
    Source(Readable(global) && Readable(nearest),
           key => if FileSetting(nearest, key).Some? then FileSetting(nearest, key) else FileSetting(global, key),
           if HasFamilyKey(nearest) then FileIndent(nearest) else FileIndent(global))
  }

  ghost predicate Shows(view: Option<ConfigView>, source: Source)
    reads if view.Some? then {view.value} else {}
  {
    (view.Some? <==> source.readable) &&
    (view.Some? ==> view.value.indent == source.indent && forall key :: view.value.Get(key) == source.get(key))
  }

  /** The global file first, then the nearest one over it; an explicit file replaces both; disabled
      reading reads none. */
  method Resolve(disabled: bool, explicit: Option<ConfigFile>, global: Option<ConfigFile>, nearest: Option<ConfigFile>)
    returns (view: Option<ConfigView>)
    requires forall f :: f in [explicit, global, nearest] && f.Some? ==> f.value.Valid()
    ensures disabled ==> Shows(view, NOTHING)
    ensures !disabled && explicit.Some? ==> Shows(view, Alone(explicit.value))
    ensures !disabled && explicit.None? ==> Shows(view, Overlay(global, nearest))
  {
    hide TableSetting, TableIndent, KindOf, Before, LastFamilyKey;
    NoTable();
    var merged := new ConfigView();
    if disabled {
      return Some(merged);
    }
    if explicit.Some? {
      var ok := merged.ReadConfigFile(explicit.value);
      return if ok then Some(merged) else None;
    }
    if global.Some? {
      var ok := merged.ReadConfigFile(global.value);
      if !ok {
        return None;
      }
    }
    if nearest.Some? {
      var ok := merged.ReadConfigFile(nearest.value);
      if !ok {
        return None;
      }
      FamilyDecides(nearest.value.Defaults(), FileIndent(global));
    }
    return Some(merged);
  }

  /** A family key leaves nothing of what was said before. */
  lemma FamilyDecides(table: Table, before: Option<Indent>)
    requires AllTyped(table)
    ensures TableIndent(table, before) == if LastFamilyKey(table).Some? then TableIndent(table, None) else before
  {
    if LastFamilyKey(table).Some? {
      var key := LastFamilyKey(table).value;
      LastFamilyFound(table);
      LookupIsEntry(table, key);
    }
  }

  lemma {:induction false} LookupIsEntry(table: Table, key: string)
    requires Lookup(table, key).Some?
    ensures exists k :: 0 <= k < |table| && table[k] == Entry(key, Lookup(table, key).value)
  {
    var n := |table| - 1;
    if table[n].key != key {
      LookupIsEntry(table[..n], key);
      var k :| 0 <= k < n && table[..n][k] == Entry(key, Lookup(table[..n], key).value);
      assert table[k] == table[..n][k];
    } else {
      assert table[n] == Entry(key, Lookup(table, key).value);
    }
  }

  lemma NoTable()
    ensures forall key :: TableSetting([], key) == None
    ensures forall before :: TableIndent([], before) == before
    ensures LastFamilyKey([]) == None
  {
  }

  // ----- What single keys promise -----

  /** What a file with this one entry would set for the entry's own key. */
  function Lone(key: string, value: Toml): Option<Setting> { TableSetting([Entry(key, value)], key) }

  lemma BooleanKeys(key: string, value: Toml)
    requires key in ["color", "parallel", "diagnostics", "explain", "unbuffered"]
    ensures Typed(Entry(key, value)) <==> value.Boolean?
    ensures value.Boolean? ==> Lone(key, value) == Some(Flag(value.b))
  {
    OneEntry(Entry(key, value));
  }

  lemma CountKeys(key: string, value: Toml)
    requires key in ["max-memory-bytes", "max-spill-bytes", "max-spill-disk-bytes"]
    ensures Typed(Entry(key, value)) <==> value.Integer? && value.n >= 0
    ensures value.Integer? && value.n >= 0 ==> Lone(key, value) == Some(Count(value.n))
  {
    OneEntry(Entry(key, value));
  }

  lemma NameKeys(value: Toml)
    ensures Typed(Entry("output-format", value)) <==> value.Text? && value.s in ["json", "ndjson", "json-seq"]
    ensures Typed(Entry("mismatch-policy", value)) <==> value.Text? && value.s in ["lenient", "warn", "strict"]
    ensures Typed(Entry("strictness", value)) <==> value.Text? && value.s in ["error", "warn", "strict", "lenient"]
    ensures Typed(Entry("output-format", value)) ==> Lone("output-format", value) == Some(Format(value.s))
    ensures Typed(Entry("mismatch-policy", value)) ==> Lone("mismatch-policy", value) == Some(Policy(value.s))
    ensures Typed(Entry("strictness", value)) ==> Lone("strictness", value) == Some(Policy(value.s))
  {
    OneEntry(Entry("output-format", value));
    OneEntry(Entry("mismatch-policy", value));
    OneEntry(Entry("strictness", value));
  }

  /** The four keys of the indentation: an integer from -1, for tabs, to 7; or a switch that sets or clears it. */
  lemma IndentKeys(value: Toml, before: Option<Indent>)
    ensures Typed(Entry("indent", value)) <==> value.Integer? && -1 <= value.n <= 7
    ensures Typed(Entry("indent", value)) ==>
              TableIndent([Entry("indent", value)], before) == Some(if value.n == -1 then Tabs else Spaces(value.n))
    ensures forall key :: key in ["tab", "compact", "compact-output"] ==>
              (Typed(Entry(key, value)) <==> value.Boolean?) &&
              (value.Boolean? ==>
                 TableIndent([Entry(key, value)], before) ==
                 if !value.b then None else Some(if key == "tab" then Tabs else Compact))
  {
    OneEntry(Entry("indent", value));
    forall key | key in ["tab", "compact", "compact-output"]
      ensures (Typed(Entry(key, value)) <==> value.Boolean?) &&
              (value.Boolean? ==>
                 TableIndent([Entry(key, value)], before) ==
                 if !value.b then None else Some(if key == "tab" then Tabs else Compact))
    {
      OneEntry(Entry(key, value));
    }
  }

  /** The spellings of a memory ceiling: a percentage that is not zero, or bytes with a binary unit, where zero disables
      and what exceeds 64 bits is refused. */
  lemma CeilingSpellings(n: nat, unit: char)
    requires n < U64
    ensures ParseMaxRss(Digits(n) + "%") == if n == 0 then None else Some(Governor.Percent(n))
    ensures unit in "kKmMgG" ==>
              var bytes := n * if unit in "kK" then 1024 else if unit in "mM" then 1024 * 1024 else 1024 * 1024 * 1024;
              ParseMaxRss(Digits(n) + [unit]) ==
              if bytes >= 0x1_0000_0000_0000_0000 then None
              else Some(if bytes == 0 then Governor.Disabled else Governor.Bytes(bytes))
    ensures ParseMaxRss(Digits(n)) == Some(if n == 0 then Governor.Disabled else Governor.Bytes(n))
  {
    hide Digits, ParseU64;
    var d := Digits(n);
    DigitsDenote(n);
    ParseDigits(n);
    hide ParseWorkers;
    PlainDial(d, n);
    Units(unit);
    assert (d + [unit])[..|d|] == d && (d + "%")[..|d|] == d;
  }

  lemma Units(unit: char)
    ensures unit in "kK" <==> unit in ['k', 'K']
    ensures unit in "mM" <==> unit in ['m', 'M']
    ensures unit in "gG" <==> unit in ['g', 'G']
    ensures unit in "kKmMgG" <==> unit in ['k', 'K'] || unit in ['m', 'M'] || unit in ['g', 'G']
  {
    assert "kK" == ['k', 'K'] && "mM" == ['m', 'M'] && "gG" == ['g', 'G'];
    assert "kKmMgG" == ['k', 'K'] + ['m', 'M'] + ['g', 'G'];
  }

  /** The ceiling and the worker count are written as integers or as text. */
  lemma DialKeys(text: string)
    ensures Lone("max-rss", Text(text)) ==
            if ParseMaxRss(text).Some? then Some(Ceiling(ParseMaxRss(text).value)) else None
    ensures Lone("workers", Text("auto")) == Some(Threads(Auto))
    ensures forall n :: Lone("max-rss", Integer(n)) == Coerce(MaxRss, Integer(n))
    ensures forall n :: Lone("workers", Integer(n)) == Coerce(Workers, Integer(n))
  {
    hide ParseMaxRss, Lone, Coerce;
    DialIs("max-rss", MaxRss, Text(text));
    DialIs("workers", Workers, Text("auto"));
    CeilingText(text);
    AutoText();
    forall n
      ensures Lone("max-rss", Integer(n)) == Coerce(MaxRss, Integer(n))
      ensures Lone("workers", Integer(n)) == Coerce(Workers, Integer(n))
    {
      DialIs("max-rss", MaxRss, Integer(n));
      DialIs("workers", Workers, Integer(n));
    }
  }

  lemma DialIs(key: string, kind: Kind, value: Toml)
    requires (key == "max-rss" && kind == MaxRss) || (key == "workers" && kind == Workers)
    ensures Lone(key, value) == Coerce(kind, value)
  {
    hide Coerce;
    OneEntry(Entry(key, value));
  }

  lemma CeilingText(text: string)
    ensures Coerce(MaxRss, Text(text)) ==
            if ParseMaxRss(text).Some? then Some(Ceiling(ParseMaxRss(text).value)) else None
  {
    hide ParseMaxRss;
  }

  lemma AutoText()
    ensures Coerce(Workers, Text("auto")) == Some(Threads(Auto))
  {
  }

  /** Any other key is without effect, whatever its value. */
  lemma OtherKeys(e: Entry<Toml>, before: Option<Indent>)
    requires e.key !in ["color", "parallel", "diagnostics", "explain", "unbuffered", "max-memory-bytes",
                        "max-spill-bytes", "max-spill-disk-bytes", "output-format", "mismatch-policy", "strictness",
                        "indent", "tab", "compact", "compact-output", "max-rss", "workers"]
    ensures Typed(e) && TableIndent([e], before) == before && forall key :: TableSetting([e], key) == None
  {
    OneEntry(e);
    NoKind(e.key);
  }

  lemma NoKind(key: string)
    requires key !in ["color", "parallel", "diagnostics", "explain", "unbuffered", "max-memory-bytes",
                      "max-spill-bytes", "max-spill-disk-bytes", "output-format", "mismatch-policy", "strictness",
                      "indent", "tab", "compact", "compact-output", "max-rss", "workers"]
    ensures KindOf(key) == None && !Family(key)
  {
    var known := ["color", "parallel", "diagnostics", "explain", "unbuffered", "max-memory-bytes", "max-spill-bytes",
                  "max-spill-disk-bytes", "output-format", "mismatch-policy", "strictness", "indent", "tab", "compact",
                  "compact-output", "max-rss", "workers"];
    assert forall k :: 0 <= k < |known| ==> key != known[k];
    assert key != known[0] && key != known[1] && key != known[2] && key != known[3] && key != known[4] &&
           key != known[5] && key != known[6] && key != known[7] && key != known[8] && key != known[9] &&
           key != known[10] && key != known[11] && key != known[12] && key != known[13] && key != known[14] &&
           key != known[15] && key != known[16];
  }

  // ----- The family is not overlaid key by key -----

  /** The table a per-key overlay of the two files would be. */
  function Overlaid(near: Table, far: Table, key: string): Option<Toml>
  {
    Or(Lookup(near, key), Lookup(far, key))
  }

  /** What that overlay's last family key would say. */
  function OverlaidIndent(near: Table, far: Table): Option<Indent>
  {
    var key := if Overlaid(near, far, "tab").Some? then "tab"
               else if Overlaid(near, far, "indent").Some? then "indent"
               else if Overlaid(near, far, "compact-output").Some? then "compact-output"
               else "compact";
    if Overlaid(near, far, key).Some? && Says(key, Overlaid(near, far, key).value).Some?
    then Says(key, Overlaid(near, far, key).value).value
    else None
  }

  /** The position of a family key in the alphabet. */
  function Rank(key: string): nat
  {
    if key == "tab" then 4 else if key == "indent" then 3 else if key == "compact-output" then 2 else 1
  }

  /** Merging the files key by key gives the same indentation exactly when the nearest file has no family key, or the
      global file's last one is not alphabetically later, or both say the same. */
  lemma PerKeyExactly(near: Table, far: Table)
    requires forall key, t :: t in [near, far] && Family(key) && Lookup(t, key).Some? ==>
               Says(key, Lookup(t, key).value).Some?
    ensures TableIndent(near, TableIndent(far, None)) == OverlaidIndent(near, far) <==>
            LastFamilyKey(near).None? || LastFamilyKey(far).None? ||
            Rank(LastFamilyKey(far).value) <= Rank(LastFamilyKey(near).value) ||
            TableIndent(near, None) == TableIndent(far, None)
  {
    hide Lookup, Says;
    assert near in [near, far] && far in [near, far];
    LastFamilyFound(near);
    LastFamilyFound(far);
  }

  /** An input at which the two differ: the nearest file indents by two spaces, the global one by tabs. */
  lemma PerKeyCounterexample()
    ensures var near, far := [Entry("indent", Integer(2))], [Entry("tab", Boolean(true))];
            TableIndent(near, TableIndent(far, None)) == Some(Spaces(2)) && OverlaidIndent(near, far) == Some(Tabs)
  {
    var near, far := [Entry("indent", Integer(2))], [Entry("tab", Boolean(true))];
    OneEntry(near[0]);
    OneEntry(far[0]);
    assert LastFamilyKey(near) == Some("indent") && LastFamilyKey(far) == Some("tab");
    assert Overlaid(near, far, "tab") == Some(Boolean(true));
  }

  lemma LastFamilyFound(table: Table)
    ensures LastFamilyKey(table).Some? ==>
            Family(LastFamilyKey(table).value) && Lookup(table, LastFamilyKey(table).value).Some?
    ensures forall key :: Family(key) && Lookup(table, key).Some? ==>
              LastFamilyKey(table).Some? && Rank(key) <= Rank(LastFamilyKey(table).value)
  {
  }

  // ----- Under the command line -----

  const DEFAULT_INDENT: Indent := Spaces(2)

  /** The ordinary keys, in the order the merge visits them. */
  const ORDINARY: seq<string> := [
    "max-memory-bytes", "max-rss", "max-spill-bytes", "max-spill-disk-bytes", "parallel", "workers", "diagnostics",
    "explain", "unbuffered", "mismatch-policy", "strictness", "output-format"
  ]

  /** What the command line set. The colour switches are kept apart: each only forces one way. */
  datatype Argv = Argv(settings: map<string, Setting>, indent: Option<Indent>, color: bool, monochrome: bool)
  {
    function Get(key: string): Option<Setting> { if key in settings then Some(settings[key]) else None }
  }

  /** What a run uses. */
  datatype RunSettings = RunSettings(settings: map<string, Setting>, indent: Indent, color: bool, monochrome: bool)
  {
    function Get(key: string): Option<Setting> { if key in settings then Some(settings[key]) else None }
  }

  /** Every key the command line left unset takes the configured value. */
  method Merge(argv: Argv, view: ConfigView) returns (run: RunSettings)
    ensures forall key :: run.Get(key) == Or(argv.Get(key), if key in ORDINARY then view.Get(key) else None)
    ensures run.indent == if argv.indent.Some? then argv.indent.value
                          else if view.indent.Some? then view.indent.value else DEFAULT_INDENT
    ensures run.color == argv.color
    ensures run.monochrome <==> argv.monochrome || (!argv.color && view.Get("color") == Some(Flag(false)))
  {
    var monochrome := argv.monochrome;
    if !argv.color && !argv.monochrome && view.Get("color") == Some(Flag(false)) {
      monochrome := true;
    }
    var indent := if argv.indent.Some? then argv.indent.value else DEFAULT_INDENT;
    if argv.indent.None? && view.indent.Some? {
      indent := view.indent.value;
    }
    var settings := argv.settings;
    for k := 0 to |ORDINARY|
      invariant forall key :: RunSettings(settings, indent, argv.color, monochrome).Get(key) ==
                              Or(argv.Get(key), if key in ORDINARY[..k] then view.Get(key) else None)
    {
      assert ORDINARY[..k + 1] == ORDINARY[..k] + [ORDINARY[k]];
      var key := ORDINARY[k];
      if key !in settings && key in view.settings {
        settings := settings[key := view.settings[key]];
      }
    }
    assert ORDINARY[..|ORDINARY|] == ORDINARY;
    return RunSettings(settings, indent, argv.color, monochrome);
  }

  /** A count that is given and not zero. */
  predicate Positive(setting: Option<Setting>) { setting.Some? && setting.value.Count? && setting.value.n > 0 }

  /** What argv says, or else the source. */
  function Chosen(argv: Argv, source: Source, key: string): Option<Setting>
  {
    if argv.Get(key).Some? then argv.Get(key) else source.get(key)
  }

  /** How a run comes out: the disk ceiling must not stand without a spill store, whichever source its two halves come
      from; each key, the indentation and the colour switches are argv's, else the source's, else built in. */
  ghost predicate RunsAs(argv: Argv, source: Source, run: Option<RunSettings>)
  {
    (run.Some? <==>
       source.readable &&
       ((exists n :: n > 0 && Chosen(argv, source, "max-spill-disk-bytes") == Some(Count(n))) ==>
          exists n :: n > 0 && Chosen(argv, source, "max-spill-bytes") == Some(Count(n)))) &&
    (run.Some? ==>
       (forall key :: KindOf(key).Some? && !Family(key) && key != "color" ==>
          run.value.Get(key) == Chosen(argv, source, key)) &&
       run.value.indent == (if argv.indent.Some? then argv.indent.value
                            else if source.indent.Some? then source.indent.value else Spaces(2)) &&
       run.value.color == argv.color &&
       (run.value.monochrome <==> argv.monochrome || (!argv.color && source.get("color") == Some(Flag(false)))))
  }

  /** The whole precedence: argv, then an explicit file alone, or the nearest file and then the global one, then the
      built-in default; disabled reading leaves argv and the defaults. */
  method RunWith(argv: Argv, disabled: bool, explicit: Option<ConfigFile>, global: Option<ConfigFile>,
                 nearest: Option<ConfigFile>)
    returns (run: Option<RunSettings>)
    requires forall f :: f in [explicit, global, nearest] && f.Some? ==> f.value.Valid()
    ensures disabled ==> RunsAs(argv, NOTHING, run)
    ensures !disabled && explicit.Some? ==> RunsAs(argv, Alone(explicit.value), run)
    ensures !disabled && explicit.None? ==> RunsAs(argv, Overlay(global, nearest), run)
  {
    hide Shows, RunsAs, NOTHING, Alone, Overlay;
    var view := Resolve(disabled, explicit, global, nearest);
    run := MergeChecked(argv, view, if disabled then NOTHING else if explicit.Some? then Alone(explicit.value)
                                    else Overlay(global, nearest));
  }

  /** The merge of argv over a view, and the check behind it. */
  method MergeChecked(argv: Argv, view: Option<ConfigView>, ghost source: Source) returns (run: Option<RunSettings>)
    requires Shows(view, source)
    ensures RunsAs(argv, source, run)
  {
    hide KindOf, Family;
    if view.None? {
      return None;
    }
    var merged := Merge(argv, view.value);
    OrdinaryKeys();
    assert ORDINARY[2] == "max-spill-bytes" && ORDINARY[3] == "max-spill-disk-bytes";
    if Positive(merged.Get("max-spill-disk-bytes")) && !Positive(merged.Get("max-spill-bytes")) {
      return None;
    }
    return Some(merged);
  }

  lemma OrdinaryKeys()
    ensures forall key :: KindOf(key).Some? && !Family(key) && key != "color" ==> key in ORDINARY
  {
    forall key | KindOf(key).Some? && !Family(key) && key != "color"
      ensures key in ORDINARY
    {
      assert ORDINARY[0] == "max-memory-bytes" && ORDINARY[1] == "max-rss" && ORDINARY[2] == "max-spill-bytes";
      assert ORDINARY[3] == "max-spill-disk-bytes" && ORDINARY[4] == "parallel" && ORDINARY[5] == "workers";
      assert ORDINARY[6] == "diagnostics" && ORDINARY[7] == "explain" && ORDINARY[8] == "unbuffered";
      assert ORDINARY[9] == "mismatch-policy" && ORDINARY[10] == "strictness" && ORDINARY[11] == "output-format";
    }
  }
}
