/** The county registry built once at start-up (get_county_info in app.py):
    the population table keyed by cleaned county name and the sorted
    dropdown menu of those names. */
module Counties {
  import opened Wrappers
  import opened Ordering

  /** The text the look-ahead of the cleaning pattern .+?(?= County) waits for. */
  const Suffix: string := " County"

  /** The suffix starts at position k of s. */
  predicate OccursAt(s: string, k: int) {
    0 <= k && k + |Suffix| <= |s| && s[k..k + |Suffix|] == Suffix
  }

  /** s[i..k] holds no newline, so the pattern's '.' can consume all of it. */
  predicate LineFree(s: string, i: int, k: int)
    requires 0 <= i <= k <= |s|
  {
    forall j :: i <= j < k ==> s[j] != '\n'
  }

  /** The pattern .+?(?= County) can match s[i..k]: at least one character,
      none a newline, and the suffix right after it. */
  predicate IsMatch(s: string, i: int, k: int) {
    0 <= i < k && OccursAt(s, k) && LineFree(s, i, k)
  }

  /** s[i..k] is the first item re.findall returns: the earliest start that
      matches at all and, from that start, the shortest (lazy) match. */
  ghost predicate FirstMatchAt(s: string, i: int, k: int) {
    && IsMatch(s, i, k)
    && (forall i', k' :: 0 <= i' < i ==> !IsMatch(s, i', k'))
    && (forall k' :: i < k' < k ==> !OccursAt(s, k'))
  }

  /** The lazy quantifier from start i: having consumed s[i..k-1], it consumes
      s[k-1] and stops as soon as the suffix follows. */
  function LazyEnd(s: string, i: nat, k: nat): (r: Option<nat>)
    requires i < k <= |s| + 1
    requires LineFree(s, i, k - 1)
    requires forall k' :: i < k' < k ==> !OccursAt(s, k')
    ensures r.Some? ==> IsMatch(s, i, r.value) && forall k' :: i < k' < r.value ==> !OccursAt(s, k')
    ensures r.None? ==> forall k' :: !IsMatch(s, i, k')
    decreases |s| + 1 - k
  {
    if k > |s| then None
    else if s[k - 1] == '\n' then
      assert forall k' :: k <= k' <= |s| ==> !LineFree(s, i, k');
      None
    else if OccursAt(s, k) then Some(k)
    else LazyEnd(s, i, k + 1)
  }

  /** The scan of re.findall for its first match, trying starts i, i+1, ... */
  function FirstMatch(s: string, i: nat): (r: Option<(nat, nat)>)
    requires i <= |s|
    requires forall i', k' :: 0 <= i' < i ==> !IsMatch(s, i', k')
    ensures r.Some? ==> i <= r.value.0 && FirstMatchAt(s, r.value.0, r.value.1)
    ensures r.None? ==> forall i', k' :: !IsMatch(s, i', k')
    decreases |s| - i
  {
    if i == |s| then None
    else
      match LazyEnd(s, i, i + 1)
      case Some(k) => Some((i, k))
      case None => FirstMatch(s, i + 1)
  }

  /** re.findall(".+?(?= County)", raw)[0]: the first match, or the IndexError
      raised when there is none. */
  function CleanName(raw: string): (r: Result<string, Error>)
    ensures r.Success? <==> exists i, k :: IsMatch(raw, i, k)
    ensures r.Success? ==> exists i, k :: FirstMatchAt(raw, i, k) && r.value == raw[i..k]
    ensures r.Failure? ==> r.error == NoCountyName(raw)
  {
    match FirstMatch(raw, 0)
    case Some((i, k)) => Success(raw[i..k])
    case None => Failure(NoCountyName(raw))
  }

  predicate NoNewlines(s: string) {
    forall j :: 0 <= j < |s| ==> s[j] != '\n'
  }

  /** When the text before the first " County" at a position >= 1 is free of
      newlines, that text is the cleaned name. */
  lemma CleanNameIsPrefix(raw: string, k: int)
    requires 1 <= k && OccursAt(raw, k) && LineFree(raw, 0, k)
    requires forall k' :: 1 <= k' < k ==> !OccursAt(raw, k')
    ensures CleanName(raw) == Success(raw[..k])
  {
    assert IsMatch(raw, 0, k);
    assert CleanName(raw).Success?;
    var i, k0 :| FirstMatchAt(raw, i, k0) && CleanName(raw).value == raw[i..k0];
    assert i == 0;
    assert k0 >= k;
    assert k >= k0;
  }

  /** For a one-line label the cleaned name is what precedes the first
      " County" that is not at the very start; with no such occurrence the
      cleaning fails. */
  lemma CleanNameOneLine(raw: string)
    requires NoNewlines(raw)
    ensures CleanName(raw).Success? <==> exists k :: 1 <= k && OccursAt(raw, k)
    ensures forall k :: 1 <= k && OccursAt(raw, k) && (forall k' :: 1 <= k' < k ==> !OccursAt(raw, k'))
                      ==> CleanName(raw) == Success(raw[..k])
  {
    if exists k :: 1 <= k && OccursAt(raw, k) {
      var k :| 1 <= k && OccursAt(raw, k);
      assert IsMatch(raw, 0, k);
    }
    forall k | 1 <= k && OccursAt(raw, k) && (forall k' :: 1 <= k' < k ==> !OccursAt(raw, k'))
      ensures CleanName(raw) == Success(raw[..k])
    {
      CleanNameIsPrefix(raw, k);
    }
  }

  /** No " C" starts inside name after its first character, so the suffix
      cannot begin there. */
  predicate NoSuffixInside(name: string) {
    forall j :: 1 <= j < |name| - 1 ==> name[j] != ' ' || name[j + 1] != 'C'
  }

  /** A census label "<name> County<rest>" cleans to name when name is one
      line and " County" cannot start inside it. */
  lemma CleanNameOfLabel(name: string, rest: string)
    requires |name| >= 1 && NoNewlines(name) && NoSuffixInside(name)
    ensures CleanName(name + Suffix + rest) == Success(name)
  {
    var s := name + Suffix + rest;
    var k := |name|;
    assert s[k..k + |Suffix|] == Suffix;
    assert forall j :: 0 <= j < k ==> s[j] == name[j];
    assert s[k] == ' ' && s[k + 1] == 'C';
    assert forall j :: 1 <= j < k ==> !OccursAt(s, j);
    CleanNameIsPrefix(s, k);
    assert s[..k] == name;
  }

  /** The example in the source's comment. */
  lemma CleanNameExample(raw: string)
    requires raw == "Yolo County, California"
    ensures CleanName(raw) == Success("Yolo")
  {
    var yolo := "Yolo";
    assert yolo[0] == 'Y' && yolo[1] == 'o' && yolo[2] == 'l' && yolo[3] == 'o';
    assert raw == yolo + Suffix + ", California";
    CleanNameOfLabel(yolo, ", California");
  }

  /** A name with a space in it keeps the space. */
  lemma CleanNameKeepsInnerSpaces(raw: string)
    requires raw == "Los Angeles County, California"
    ensures CleanName(raw) == Success("Los Angeles")
  {
    var la := "Los Angeles";
    forall j | 0 <= j < |la|
      ensures la[j] != '\n' && (la[j] == ' ' ==> j == 3)
    {
      if j < 3 {
        assert la[..3] == "Los";
      } else if j > 3 {
        assert la[4..] == "Angeles";
        assert la[j] == la[4..][j - 4];
      }
    }
    assert la[4] == 'A';
    assert raw == la + Suffix + ", California";
    CleanNameOfLabel(la, ", California");
  }

  /** A label whose only " County" is at the start has nothing to clean: the
      pattern needs at least one character before the suffix. */
  lemma CleanNameNeedsAPrefix()
    ensures CleanName(" County") == Failure(NoCountyName(" County"))
    ensures CleanName("Yolo") == Failure(NoCountyName("Yolo"))
  {
    CleanNameOneLine(" County");
    CleanNameOneLine("Yolo");
  }

  /** One row of the census table, already split into its label and its
      integer population. */
  datatype Row = Row(rawName: string, population: nat)

  /** One option of the county dropdown: caption is the dict's 'label'. */
  datatype MenuItem = MenuItem(caption: string, value: string)

  /** The registry: population by cleaned name, and the dropdown menu. */
  datatype CountyInfo = CountyInfo(populations: map<string, nat>, menu: seq<MenuItem>)

  /** A row after cleaning: the county's short name and its population. */
  datatype Entry = Entry(name: string, population: nat)

  /** Row i is the first row whose label does not clean, and it fails with e. */
  predicate FailsFirstAt(rows: seq<Row>, i: int, e: Error) {
    && 0 <= i < |rows|
    && CleanName(rows[i].rawName) == Failure(e)
    && forall j :: 0 <= j < i ==> CleanName(rows[j].rawName).Success?
  }

  /** Putting a row that cleans in front moves the first failure back by one. */
  lemma FailsFirstAtShift(rows: seq<Row>, i: int, e: Error)
    requires |rows| > 0 && CleanName(rows[0].rawName).Success?
    requires FailsFirstAt(rows[1..], i, e)
    ensures FailsFirstAt(rows, i + 1, e)
  {
    var tail := rows[1..];
    assert rows[i + 1] == tail[i];
    forall j | 1 <= j < i + 1
      ensures CleanName(rows[j].rawName).Success?
    {
      assert rows[j] == tail[j - 1];
    }
  }

  /** Cleans every row in order; the first row whose label does not clean
      stops the loop with its error. */
  function CleanRows(rows: seq<Row>): (r: Result<seq<Entry>, Error>)
    ensures r.Success? <==> forall i :: 0 <= i < |rows| ==> CleanName(rows[i].rawName).Success?
    ensures r.Success? ==> |r.value| == |rows| && forall i :: 0 <= i < |rows| ==>
                             r.value[i] == Entry(CleanName(rows[i].rawName).value, rows[i].population)
    ensures r.Failure? ==> exists i :: FailsFirstAt(rows, i, r.error)
    decreases |rows|
  {
    if |rows| == 0 then Success([])
    else
      var tail := rows[1..];
      assert forall i :: 1 <= i < |rows| ==> tail[i - 1] == rows[i];
      match CleanName(rows[0].rawName)
      case Failure(e) =>
        assert FailsFirstAt(rows, 0, e);
        Failure(e)
      case Success(name) =>
        match CleanRows(tail)
        case Failure(e) =>
          var i :| FailsFirstAt(tail, i, e);
          FailsFirstAtShift(rows, i, e);
          Failure(e)
        case Success(rest) =>
          var r := [Entry(name, rows[0].population)] + rest;
          assert forall i :: 1 <= i < |rows| ==> r[i] == rest[i - 1];
          Success(r)
  }

  /** No later entry has the same name as entry i. */
  ghost predicate LastWithName(entries: seq<Entry>, i: int)
    requires 0 <= i < |entries|
  {
    forall j :: i < j < |entries| ==> entries[j].name != entries[i].name
  }

  /** Some entry carries this name. */
  ghost predicate Named(entries: seq<Entry>, name: string) {
    exists i :: 0 <= i < |entries| && entries[i].name == name
  }

  /** pops[name] = pop for each entry in turn: the keys are the names seen
      and a repeated name keeps the population of its last entry. */
  function Table(entries: seq<Entry>): (m: map<string, nat>)
    ensures forall name :: name in m <==> Named(entries, name)
    ensures forall i {:trigger LastWithName(entries, i)} :: 0 <= i < |entries| && LastWithName(entries, i) ==>
                          entries[i].name in m && m[entries[i].name] == entries[i].population
    decreases |entries|
  {
    if |entries| == 0 then map[]
    else
      var init := entries[..|entries| - 1];
      var last := entries[|entries| - 1];
      var m := Table(init);
      NamedExtend(init, last);
      assert entries == init + [last];
      var r := m[last.name := last.population];
      forall i | 0 <= i < |entries| && LastWithName(entries, i)
        ensures entries[i].name in r && r[entries[i].name] == entries[i].population
      {
        if i < |init| {
          assert init[i] == entries[i];
          assert entries[|entries| - 1].name != entries[i].name;
          assert LastWithName(init, i);
        }
      }
      r
  }

  lemma NamedExtend(entries: seq<Entry>, e: Entry)
    ensures forall name :: Named(entries + [e], name) <==> Named(entries, name) || name == e.name
  {
    forall name
      ensures Named(entries + [e], name) <==> Named(entries, name) || name == e.name
    {
      var all := entries + [e];
      if Named(all, name) {
        var i :| 0 <= i < |all| && all[i].name == name;
        if i < |entries| {
          assert entries[i].name == name;
        }
      }
      if Named(entries, name) {
        var i :| 0 <= i < |entries| && entries[i].name == name;
        assert all[i].name == name;
      }
      if name == e.name {
        assert all[|entries|].name == name;
      }
    }
  }

  /** The loop filling pops, row by row, as get_county_info runs it. Python
      stores each population as soon as its row is cleaned; since the first
      row that does not clean raises before the table is returned, cleaning
      every row first and then filling the table gives the same outcome. */
  function Populations(rows: seq<Row>): (r: Result<map<string, nat>, Error>)
    ensures r.Success? <==> forall i :: 0 <= i < |rows| ==> CleanName(rows[i].rawName).Success?
    ensures r.Failure? ==> exists i :: FailsFirstAt(rows, i, r.error)
  {
    var entries :- CleanRows(rows);
    Success(Table(entries))
  }

  /** The table's keys are exactly the cleaned names of the rows. */
  lemma PopulationKeys(rows: seq<Row>, name: string)
    requires Populations(rows).Success?
    ensures name in Populations(rows).value <==>
            exists i :: 0 <= i < |rows| && CleanName(rows[i].rawName) == Success(name)
  {
    var entries := CleanRows(rows).value;
    if name in Populations(rows).value {
      var i :| 0 <= i < |entries| && entries[i].name == name;
      assert CleanName(rows[i].rawName) == Success(name);
    }
    if exists i :: 0 <= i < |rows| && CleanName(rows[i].rawName) == Success(name) {
      var i :| 0 <= i < |rows| && CleanName(rows[i].rawName) == Success(name);
      assert entries[i].name == name;
      assert Named(entries, name);
    }
  }

  /** A row that no later row overrides keeps its population in the table:
      on duplicate names the last row wins. */
  lemma PopulationLastRowWins(rows: seq<Row>, i: int)
    requires 0 <= i < |rows|
    requires forall j :: i < j < |rows| ==> CleanName(rows[j].rawName) != CleanName(rows[i].rawName)
    ensures Populations(rows).Success? ==>
              && CleanName(rows[i].rawName).Success?
              && CleanName(rows[i].rawName).value in Populations(rows).value
              && Populations(rows).value[CleanName(rows[i].rawName).value] == rows[i].population
  {
    if Populations(rows).Success? {
      var entries := CleanRows(rows).value;
      forall j | i < j < |entries|
        ensures entries[j].name != entries[i].name
      {
        assert CleanName(rows[j].rawName) != CleanName(rows[i].rawName);
      }
      assert LastWithName(entries, i);
    }
  }

  /** Every label in a menu is its own value, the labels are strictly
      increasing, and they are exactly the given names. */
  ghost predicate IsMenuFor(menu: seq<MenuItem>, names: set<string>) {
    && (forall i :: 0 <= i < |menu| ==> menu[i].caption == menu[i].value)
    && (forall i, j :: 0 <= i < j < |menu| ==> Less(menu[i].caption, menu[j].caption))
    && (forall name :: name in names <==> exists i :: 0 <= i < |menu| && menu[i].caption == name)
  }

  function MenuLabels(menu: seq<MenuItem>): (labels: seq<string>)
    ensures |labels| == |menu|
    ensures forall i :: 0 <= i < |menu| ==> labels[i] == menu[i].caption
  {
    seq(|menu|, i requires 0 <= i < |menu| => menu[i].caption)
  }

  /** sorted(pops.keys()) turned into {'label': name, 'value': name} items. */
  method BuildMenu(pops: map<string, nat>) returns (menu: seq<MenuItem>)
    ensures IsMenuFor(menu, pops.Keys)
  {
    var names: seq<string> := [];
    var rest := pops.Keys;
    while rest != {}
      invariant rest <= pops.Keys
      invariant StrictlySorted(names)
      invariant forall name :: name in names <==> name in pops.Keys && name !in rest
      decreases rest
    {
      var name :| name in rest;
      names := Insert(names, name);
      rest := rest - {name};
    }
    menu := seq(|names|, i requires 0 <= i < |names| => MenuItem(names[i], names[i]));
    assert forall i :: 0 <= i < |menu| ==> menu[i].caption == names[i];
    forall name | name in pops.Keys
      ensures exists i :: 0 <= i < |menu| && menu[i].caption == name
    {
      var i :| 0 <= i < |names| && names[i] == name;
      assert menu[i].caption == name;
    }
  }

  /** The menu for a set of names is unique, so it is the one Python's
      sorted() produces whatever order the dict yields its keys in. */
  lemma MenuIsUnique(a: seq<MenuItem>, b: seq<MenuItem>, names: set<string>)
    requires IsMenuFor(a, names) && IsMenuFor(b, names)
    ensures a == b
  {
    var la, lb := MenuLabels(a), MenuLabels(b);
    forall x
      ensures x in la <==> x in lb
    {
      if x in la {
        var i :| 0 <= i < |la| && la[i] == x;
        assert x in names;
        var j :| 0 <= j < |b| && b[j].caption == x;
        assert lb[j] == x;
      }
      if x in lb {
        var j :| 0 <= j < |lb| && lb[j] == x;
        assert x in names;
        var i :| 0 <= i < |a| && a[i].caption == x;
        assert la[i] == x;
      }
    }
    SortedUnique(la, lb);
    assert forall i :: 0 <= i < |a| ==> a[i] == MenuItem(la[i], la[i]) == b[i];
  }

  /** The menu has one entry per distinct county name. */
  lemma MenuSize(menu: seq<MenuItem>, names: set<string>)
    requires IsMenuFor(menu, names)
    ensures |menu| == |names|
  {
    var labels := MenuLabels(menu);
    SortedCardinality(labels);
    assert Elements(labels) == names by {
      forall x
        ensures x in Elements(labels) <==> x in names
      {
        if x in names {
          var i :| 0 <= i < |menu| && menu[i].caption == x;
          assert labels[i] == x;
        }
      }
    }
  }

  /** data[1:] in Python: every row but the header, and nothing for an empty
      table. */
  function DataRows(data: seq<Row>): (rows: seq<Row>)
    ensures |rows| == if |data| == 0 then 0 else |data| - 1
    ensures forall i :: 1 <= i < |data| ==> rows[i - 1] == data[i]
  {
    if |data| == 0 then [] else data[1..]
  }

  /** get_county_info: skip the header row, build the population table from
      the remaining rows and the sorted menu from its names. The menu is
      built from the table's keys, so a name given by several rows appears
      once. */
  method GetCountyInfo(data: seq<Row>) returns (r: Result<CountyInfo, Error>)
    ensures r.Success? <==> forall i :: 1 <= i < |data| ==> CleanName(data[i].rawName).Success?
    ensures r.Failure? ==> exists i :: 1 <= i < |data| && CleanName(data[i].rawName) == Failure(r.error)
                                   && forall j :: 1 <= j < i ==> CleanName(data[j].rawName).Success?
    ensures r.Success? ==> r.value.populations == Populations(DataRows(data)).value
    ensures r.Success? ==> IsMenuFor(r.value.menu, r.value.populations.Keys)
  {
    var rows := DataRows(data);
    match Populations(rows)
    case Failure(e) =>
      ghost var i :| FailsFirstAt(rows, i, e);
      assert CleanName(data[i + 1].rawName) == Failure(e);
      assert forall j :: 1 <= j < i + 1 ==> CleanName(data[j].rawName).Success?;
      r := Failure(e);
    case Success(pops) =>
      var menu := BuildMenu(pops);
      r := Success(CountyInfo(pops, menu));
  }
}
