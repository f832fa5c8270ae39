/**
  The schema registry: for each table the importer knows, the ordered list of
  its columns.  Column order is the order of the CSV fields.  Each column has a
  SQL type string (which picks the coercion), a validation pattern and the
  header label that marks a header-row cell.
 */
module Schema {
  import opened Patterns

  datatype ColumnSpec = Column(name: string, typ: string, pattern: Pattern, header: string)

  const Supported: set<string> := {"races", "courses", "skills", "characters"}

  /** Columns of `races`, in CSV order. */
  function RacesColumns(): seq<ColumnSpec>
  {
    [
      Column("id", "int(11) unsigned", Digits, "?????????ID"),
      Column("grade", "varchar(6)", AnyLine, "????????????"),
      Column("name", "varchar(255)", AnyLine, "????????????"),
      Column("junior", "bit(1)", BoolLike, "????????????"),
      Column("classic", "bit(1)", BoolLike, "???????????????"),
      Column("senior", "bit(1)", BoolLike, "?????????"),
      Column("month", "tinyint(4) unsigned", ShortDigits, "?????????"),
      Column("half_period", "varchar(1)", AnyLine, "???????????????"),
      Column("period_name", "varchar(255)", AnyLine, "????????????"),
      Column("place", "varchar(255)", AnyLine, "??????"),
      Column("ground", "varchar(255)", AnyLine, "??????"),
      Column("distance", "int(11) unsigned", Digits, "??????"),
      Column("suitable_distance", "varchar(255)", AnyLine, "????????????"),
      Column("direction", "varchar(1)", AnyLine, "????????????"),
      Column("lane", "varchar(1)", AnyLine, "????????????"),
      Column("tight", "bit(1)", BoolLike, "?????????"),
      Column("full_gate", "tinyint(2) unsigned", ShortDigits, "???????????????"),
      Column("night_race", "bit(1)", BoolLike, "????????????"),
      Column("season", "varchar(255)", AnyLine, "??????"),
      Column("meta", "json", AnyLine, "???????????????"),
      Column("extend", "text", AnyLine, "???????????????")
    ]
  }

  /** Columns of `courses`, in CSV order. */
  function CoursesColumns(): seq<ColumnSpec>
  {
    [
      Column("id", "int(11) unsigned", Digits, "?????????ID"),
      Column("place", "varchar(255)", AnyLine, "??????"),
      Column("ground", "varchar(255)", AnyLine, "??????"),
      Column("distance", "int(11) unsigned", Digits, "??????"),
      Column("lane", "varchar(1)", AnyLine, "????????????"),
      Column("category", "varchar(255)", AnyLine, "????????????"),
      Column("ref_status", "json", AnyLine, "?????????????????????"),
      Column("slope", "json", AnyLine, "???????????????"),
      Column("meta", "json", AnyLine, "???????????????"),
      Column("extend", "text", AnyLine, "???????????????")
    ]
  }

  /** Columns of `skills`, in CSV order. */
  function SkillsColumns(): seq<ColumnSpec>
  {
    [
      Column("id", "int(11) unsigned", Digits, "?????????ID"),
      Column("name", "varchar(255)", AnyLine, "????????????"),
      Column("passive", "bit(1)", BoolLike, "?????????????????????"),
      Column("rare", "bit(1)", BoolLike, "???????????????"),
      Column("bad", "bit(1)", BoolLike, "??????????????????"),
      Column("point", "int(11) unsigned", Digits, "??????????????????"),
      Column("speed", "int(11)", SignedDigits, "??????????????????"),
      Column("stamina", "int(11)", SignedDigits, "??????????????????"),
      Column("power", "int(11)", SignedDigits, "???????????????"),
      Column("guts", "int(11)", SignedDigits, "????????????"),
      Column("wisdom", "int(11)", SignedDigits, "????????????"),
      Column("vision", "int(11)", SignedDigits, "????????????"),
      Column("fasten", "float(5,3)", Decimal, "?????????"),
      Column("conditions", "json", AnyLine, "????????????"),
      Column("icon", "varchar(255)", AnyLine, "????????????"),
      Column("meta", "json", AnyLine, "???????????????"),
      Column("extend", "text", AnyLine, "???????????????")
    ]
  }

  /** Columns of `characters`, in CSV order. */
  function CharactersColumns(): seq<ColumnSpec>
  {
    [
      Column("id", "int(11) unsigned", Digits, "??????????????????ID"),
      Column("name", "varchar(255)", AnyLine, "?????????????????????"),
      Column("prefix", "varchar(255)", AnyLine, "?????????"),
      Column("honorary_name", "varchar(255)", AnyLine, "????????????"),
      Column("rare", "tinyint(1) unsigned", ShortDigits, "?????????"),
      Column("turf", "varchar(1)", Rank, "?????????"),
      Column("dirt", "varchar(1)", Rank, "???????????????"),
      Column("short", "varchar(1)", Rank, "???????????????"),
      Column("mile", "varchar(1)", Rank, "???????????????"),
      Column("middle", "varchar(1)", Rank, "???????????????"),
      Column("long", "varchar(1)", Rank, "???????????????"),
      Column("frontrunner", "varchar(1)", Rank, "????????????"),
      Column("stalker", "varchar(1)", Rank, "????????????"),
      Column("looker", "varchar(1)", Rank, "????????????"),
      Column("saverunner", "varchar(1)", Rank, "????????????"),
      Column("speed", "tinyint(4) unsigned", ShortDigits, "??????????????????"),
      Column("stamina", "tinyint(4) unsigned", ShortDigits, "??????????????????"),
      Column("power", "tinyint(4) unsigned", ShortDigits, "???????????????"),
      Column("guts", "tinyint(4) unsigned", ShortDigits, "????????????"),
      Column("wisdom", "tinyint(4) unsigned", ShortDigits, "????????????"),
      Column("gr_spd", "tinyint(4) unsigned", ShortDigits, "?????????????????????"),
      Column("gr_stm", "tinyint(4) unsigned", ShortDigits, "?????????????????????"),
      Column("gr_pow", "tinyint(4) unsigned", ShortDigits, "??????????????????"),
      Column("gr_gut", "tinyint(4) unsigned", ShortDigits, "???????????????"),
      Column("gr_wis", "tinyint(4) unsigned", ShortDigits, "???????????????"),
      Column("native_skill", "json", AnyLine, "???????????????"),
      Column("skills", "json", AnyLine, "?????????"),
      Column("target_races", "json", AnyLine, "???????????????"),
      Column("meta", "json", AnyLine, "???????????????"),
      Column("extend", "text", AnyLine, "???????????????")
    ]
  }

  /** The columns of a table; an unknown table has none. */
  function SchemaFor(table: string): (cols: seq<ColumnSpec>)
    ensures table !in Supported ==> cols == []
  {
    match table
    case "races" => RacesColumns()
    case "courses" => CoursesColumns()
    case "skills" => SkillsColumns()
    case "characters" => CharactersColumns()
    case _ => []
  }

  /** The column names in schema order. */
  function Names(schema: seq<ColumnSpec>): (names: seq<string>)
    ensures |names| == |schema|
    ensures forall i :: 0 <= i < |schema| ==> names[i] == schema[i].name
  {
    seq(|schema|, i requires 0 <= i < |schema| => schema[i].name)
  }

  /** The header labels in schema order: the header row of a CSV file. */
  function Labels(schema: seq<ColumnSpec>): (labels: seq<string>)
    ensures |labels| == |schema|
    ensures forall i :: 0 <= i < |schema| ==> labels[i] == schema[i].header
  {
    seq(|schema|, i requires 0 <= i < |schema| => schema[i].header)
  }

  /** Exactly the four supported tables have columns, with 21, 10, 17 and 30 of them. */
  lemma SchemaSizes(table: string)
    ensures SchemaFor(table) != [] <==> table in Supported
    ensures |SchemaFor("races")| == 21 && |SchemaFor("courses")| == 10
    ensures |SchemaFor("skills")| == 17 && |SchemaFor("characters")| == 30
  {
  }

  predicate DistinctNames(schema: seq<ColumnSpec>)
  {
    forall i, j :: 0 <= i < j < |schema| ==> schema[i].name != schema[j].name
  }

  /** The keys of the races format, in CSV order. */
  function RacesKeys(): seq<string>
  {
    [
      "id", "grade", "name", "junior", "classic", "senior", "month", "half_period", "period_name",
      "place", "ground", "distance", "suitable_distance", "direction", "lane", "tight",
      "full_gate", "night_race", "season", "meta", "extend"
    ]
  }

  lemma RacesKeysDistinct()
    ensures forall i, j :: 0 <= i < j < |RacesKeys()| ==> RacesKeys()[i] != RacesKeys()[j]
  {
  }

  lemma DistinctRaces()
    ensures DistinctNames(RacesColumns())
  {
    assert Names(RacesColumns()) == RacesKeys();
    RacesKeysDistinct();
  }

  /** The keys of the courses format, in CSV order. */
  function CoursesKeys(): seq<string>
  {
    [
      "id", "place", "ground", "distance", "lane", "category", "ref_status", "slope", "meta",
      "extend"
    ]
  }

  lemma CoursesKeysDistinct()
    ensures forall i, j :: 0 <= i < j < |CoursesKeys()| ==> CoursesKeys()[i] != CoursesKeys()[j]
  {
  }

  lemma DistinctCourses()
    ensures DistinctNames(CoursesColumns())
  {
    assert Names(CoursesColumns()) == CoursesKeys();
    CoursesKeysDistinct();
  }

  /** The keys of the skills format, in CSV order. */
  function SkillsKeys(): seq<string>
  {
    [
      "id", "name", "passive", "rare", "bad", "point", "speed", "stamina", "power", "guts",
      "wisdom", "vision", "fasten", "conditions", "icon", "meta", "extend"
    ]
  }

  lemma SkillsKeysDistinct()
    ensures forall i, j :: 0 <= i < j < |SkillsKeys()| ==> SkillsKeys()[i] != SkillsKeys()[j]
  {
  }

  lemma DistinctSkills()
    ensures DistinctNames(SkillsColumns())
  {
    assert Names(SkillsColumns()) == SkillsKeys();
    SkillsKeysDistinct();
  }

  /** The keys of the characters format, in CSV order. */
  function CharactersKeys(): seq<string>
  {
    [
      "id", "name", "prefix", "honorary_name", "rare", "turf", "dirt", "short", "mile", "middle",
      "long", "frontrunner", "stalker", "looker", "saverunner", "speed", "stamina", "power",
      "guts", "wisdom", "gr_spd", "gr_stm", "gr_pow", "gr_gut", "gr_wis", "native_skill", "skills",
      "target_races", "meta", "extend"
    ]
  }

  lemma CharactersKeysDistinct()
    ensures forall i, j :: 0 <= i < j < |CharactersKeys()| ==> CharactersKeys()[i] != CharactersKeys()[j]
  {
  }

  lemma DistinctCharacters()
    ensures DistinctNames(CharactersColumns())
  {
    assert Names(CharactersColumns()) == CharactersKeys();
    CharactersKeysDistinct();
  }

  /** No table names a column twice, so a column name identifies a CSV position. */
  lemma ColumnNamesDistinct(table: string)
    ensures DistinctNames(SchemaFor(table))
  {
    DistinctRaces();
    DistinctCourses();
    DistinctSkills();
    DistinctCharacters();
  }
}
