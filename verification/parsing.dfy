/**
 * The parser (`parseCity`) and the loader that builds the repository of
 * cities from the lines of the input file (the `CityAnalysis` constructor).
 */
module Parsing {
  import opened CityRecords
  import opened Text

  /**
   * What `parseCity` does with one line: it returns a city, or returns
   * `null` silently (wrong field count), or returns `null` after printing
   * "Error parsing population: " followed by the raw line.
   */
  datatype ParseOutcome = Parsed(city: City) | Silent | Diagnostic(line: string)

  /** The third field yields an `int`: it has a digit, and its digits denote at most 2^31 - 1. */
  predicate PopulationFieldParses(field: string)
  {
    Digits(field) != [] && DigitsValue(Digits(field)) <= Int32Max
  }

  /**
   * `parseCity`: split on commas; exactly three parts give a city whose name
   * and state are the trimmed first two parts and whose population is the
   * number formed by the digits of the third; a third part with no digits,
   * or with too large a value, gives a diagnostic naming the line.
   */
  function ParseCity(line: string): (r: ParseOutcome)
    ensures r.Silent? <==> |JavaSplit(line)| != 3
    ensures r.Parsed? <==> |JavaSplit(line)| == 3 && PopulationFieldParses(JavaSplit(line)[2])
    ensures r.Diagnostic? ==> r.line == line
    ensures r.Parsed? ==>
      && r.city.name == Trim(JavaSplit(line)[0])
      && r.city.state == Trim(JavaSplit(line)[1])
      && r.city.population == DigitsValue(Digits(JavaSplit(line)[2]))
      && ValidPopulation(r.city.population)
  {
    var parts := JavaSplit(line);
    if |parts| != 3 then Silent
    else
      match ParseInt32(Digits(parts[2]))
      case Some(population) => Parsed(City(Trim(parts[0]), Trim(parts[1]), population))
      case None => Diagnostic(line)
  }

  /** A city written in the file format `name,state,population`. */
  function Format(c: City): string
    requires ValidPopulation(c.population)
  {
    c.name + "," + c.state + "," + Decimal(c.population)
  }

  /**
   * Writing a city out and parsing the line gives the city back, provided its
   * name and state hold no comma and have nothing for `trim()` to remove.
   */
  lemma FormatThenParse(c: City)
    requires ValidPopulation(c.population)
    requires ',' !in c.name && ',' !in c.state
    requires Trim(c.name) == c.name && Trim(c.state) == c.state
    ensures ParseCity(Format(c)) == Parsed(c)
  {
    var d := Decimal(c.population);
    FormatSplits(c);
    assert Digits(d) == d;
    ParseThreeParts(Format(c), c.name, c.state, d);
  }

  lemma FormatSplits(c: City)
    requires ValidPopulation(c.population)
    requires ',' !in c.name && ',' !in c.state
    ensures ',' in Format(c)
    ensures SplitAll(Format(c)) == [c.name, c.state, Decimal(c.population)]
  {
    var d := Decimal(c.population);
    var parts := [c.name, c.state, d];
    assert Join(parts) == Format(c) by {
      assert parts[1..] == [c.state, d];
      assert parts[1..][1..] == [d];
      assert Join(parts[1..]) == c.state + "," + d;
      assert c.name + "," + (c.state + "," + d) == Format(c);
    }
    assert ',' !in d;
    SplitAllJoin(parts);
    assert Format(c)[|c.name|] == ',';
  }

  /** `parseCity` on a line that `split` cuts into exactly three given parts. */
  lemma ParseThreeParts(line: string, name: string, state: string, population: string)
    requires ',' in line && SplitAll(line) == [name, state, population] && population != ""
    ensures JavaSplit(line) == [name, state, population]
    ensures ParseCity(line) ==
      if PopulationFieldParses(population)
      then Parsed(City(Trim(name), Trim(state), DigitsValue(Digits(population))))
      else Diagnostic(line)
  {
  }

  /**
   * A line whose parts between commas do not end after the third, as with a
   * population written with thousands separators, is dropped silently: it
   * never reaches the digit-stripping step.
   */
  lemma ExtraCommaFieldIsSilent(line: string, k: nat)
    requires 3 <= k < |SplitAll(line)| && SplitAll(line)[k] != ""
    ensures ParseCity(line) == Silent
    ensures |JavaSplit(line)| > 3
  {
    assert ',' in line;
  }

  /**
   * A trailing comma on a line that has a comma is harmless: the line parses
   * to the same city, or is dropped the same way.
   */
  lemma TrailingCommaKeepsOutcome(line: string)
    requires ',' in line
    ensures ParseCity(line).Parsed? ==> ParseCity(line + ",") == ParseCity(line)
    ensures ParseCity(line).Silent? <==> ParseCity(line + ",").Silent?
    ensures ParseCity(line).Diagnostic? ==> ParseCity(line + ",") == Diagnostic(line + ",")
  {
    TrailingCommaIgnored(line);
  }

  /** The loader's `filter(line -> !line.trim().isEmpty())`. */
  predicate IsBlank(line: string) { Trim(line) == "" }

  /** A blank line never has a comma, so `parseCity` would drop it silently anyway. */
  lemma BlankLineIsSilent(line: string)
    requires IsBlank(line)
    ensures ParseCity(line) == Silent
  {
  }

  /** The cities one line contributes to the repository (none or one). */
  function LineCities(line: string): seq<City>
  {
    if IsBlank(line) then []
    else match ParseCity(line)
      case Parsed(c) => [c]
      case _ => []
  }

  /** The diagnostics one line prints while loading (none or one). */
  function LineDiagnostics(line: string): seq<string>
  {
    if IsBlank(line) then []
    else match ParseCity(line)
      case Diagnostic(l) => [l]
      case _ => []
  }

  /**
   * The repository built from the file's lines: the successful parses of the
   * non-blank lines, in input order; each comes from a line and has a valid
   * population.
   */
  function Load(lines: seq<string>): (cities: seq<City>)
    ensures |cities| <= |lines|
    ensures forall c :: c in cities ==> ValidPopulation(c.population)
  {
    if lines == [] then [] else LineCities(lines[0]) + Load(lines[1..])
  }

  /** The diagnostics printed while loading, in input order. */
  function LoadDiagnostics(lines: seq<string>): (messages: seq<string>)
    ensures forall m :: m in messages ==> m in lines
  {
    if lines == [] then [] else LineDiagnostics(lines[0]) + LoadDiagnostics(lines[1..])
  }

  /** Loading is a map-filter over the lines: it distributes over concatenation. */
  lemma LoadAppend(a: seq<string>, b: seq<string>)
    ensures Load(a + b) == Load(a) + Load(b)
    ensures LoadDiagnostics(a + b) == LoadDiagnostics(a) + LoadDiagnostics(b)
  {
    LoadCitiesAppend(a, b);
    LoadDiagnosticsAppend(a, b);
  }

  lemma {:induction false} LoadCitiesAppend(a: seq<string>, b: seq<string>)
    ensures Load(a + b) == Load(a) + Load(b)
    decreases |a|
  {
    if a == [] {
      assert a + b == b;
    } else {
      var rest := (a + b)[1..];
      assert rest == a[1..] + b;
      LoadCitiesAppend(a[1..], b);
      assert Load(a + b) == LineCities(a[0]) + Load(rest);
    }
  }

  lemma {:induction false} LoadDiagnosticsAppend(a: seq<string>, b: seq<string>)
    ensures LoadDiagnostics(a + b) == LoadDiagnostics(a) + LoadDiagnostics(b)
    decreases |a|
  {
    if a == [] {
      assert a + b == b;
    } else {
      var rest := (a + b)[1..];
      assert rest == a[1..] + b;
      LoadDiagnosticsAppend(a[1..], b);
      assert LoadDiagnostics(a + b) == LineDiagnostics(a[0]) + LoadDiagnostics(rest);
    }
  }

  /** Every line yields at most one of a city and a diagnostic. */
  lemma {:induction false} LoadAccountsForLines(lines: seq<string>)
    ensures |Load(lines)| + |LoadDiagnostics(lines)| <= |lines|
    decreases |lines|
  {
    if lines != [] {
      LoadAccountsForLines(lines[1..]);
    }
  }

  /** A line that parses to a city contributes exactly that city. */
  lemma LoadOneLine(line: string)
    ensures ParseCity(line).Parsed? ==> Load([line]) == [ParseCity(line).city]
    ensures !ParseCity(line).Parsed? ==> Load([line]) == []
    ensures ParseCity(line).Diagnostic? ==> LoadDiagnostics([line]) == [line]
    ensures !ParseCity(line).Diagnostic? ==> LoadDiagnostics([line]) == []
  {
    if IsBlank(line) {
      BlankLineIsSilent(line);
    }
    assert [line][1..] == [];
  }

  // ------------------------------------------------- concrete lines

  /** A line made of three comma-free parts, the last one non-empty, splits into exactly those parts. */
  lemma ThreePartsSplit(line: string, parts: seq<string>)
    requires |parts| == 3 && parts[2] != ""
    requires forall i :: 0 <= i < |parts| ==> ',' !in parts[i]
    requires Join(parts) == line
    ensures JavaSplit(line) == parts
  {
    SplitAllJoin(parts);
    assert |SplitAll(line)| > 1;
  }

  /** A line whose fields after the third are not all empty, split into its comma-free parts. */
  lemma SeparatedLineIsSilent(line: string, parts: seq<string>)
    requires |parts| >= 4 && parts[3] != ""
    requires forall i :: 0 <= i < |parts| ==> ',' !in parts[i]
    requires Join(parts) == line
    ensures ParseCity(line) == Silent
  {
    SplitAllJoin(parts);
    ExtraCommaFieldIsSilent(line, 3);
  }

  /** `Chicago, IL, 2,700,000`: five comma parts, dropped without a diagnostic. */
  lemma ChicagoWithSeparatorsIsSilent()
    ensures ParseCity("Chicago, IL, 2,700,000") == Silent
  {
    ChicagoSplit();
    ExtraCommaFieldIsSilent("Chicago, IL, 2,700,000", 3);
  }

  lemma ChicagoSplit()
    ensures SplitAll("Chicago, IL, 2,700,000") == ["Chicago", " IL", " 2", "700", "000"]
  {
    var parts := ["Chicago", " IL", " 2", "700", "000"];
    assert Join(parts[3..]) == "700,000";
    assert Join(parts[2..]) == " 2,700,000";
    assert Join(parts[1..]) == " IL, 2,700,000";
    assert Join(parts) == "Chicago, IL, 2,700,000";
    SplitAllJoin(parts);
  }

  /** Two fields: dropped without a diagnostic. */
  lemma TwoFieldsIsSilent()
    ensures ParseCity("Austin,TX") == Silent
  {
    SplitAllJoin(["Austin", "TX"]);
    assert Join(["Austin", "TX"]) == "Austin,TX";
  }

  /**
   * A line of three comma-free fields whose non-empty population field holds
   * no digit: `parseCity` prints exactly one diagnostic naming the line, and
   * loading the line adds no city.
   */
  lemma NoDigitsIsDiagnosed(line: string, name: string, state: string, population: string)
    requires ',' !in name && ',' !in state && ',' !in population
    requires population != [] && forall i :: 0 <= i < |population| ==> !IsDigit(population[i])
    requires line == Join([name, state, population])
    ensures ParseCity(line) == Diagnostic(line)
    ensures LoadDiagnostics([line]) == [line]
    ensures Load([line]) == []
  {
    ThreePartsSplit(line, [name, state, population]);
    LoadOneLine(line);
  }

  /** A population of 2^31 overflows `int`: a diagnostic naming the line. */
  lemma OverflowLineIsDiagnosed()
    ensures ParseCity("Austin,TX,2147483648") == Diagnostic("Austin,TX,2147483648")
  {
    OverflowSplit();
    OverflowDigits();
    assert !PopulationFieldParses("2147483648");
    ParseThreeParts("Austin,TX,2147483648", "Austin", "TX", "2147483648");
  }

  lemma OverflowSplit()
    ensures ',' in "Austin,TX,2147483648"
    ensures SplitAll("Austin,TX,2147483648") == ["Austin", "TX", "2147483648"]
  {
    var parts := ["Austin", "TX", "2147483648"];
    assert Join(parts[1..]) == "TX,2147483648";
    assert Join(parts) == "Austin,TX,2147483648";
    SplitAllJoin(parts);
    assert "Austin,TX,2147483648"[6] == ',';
  }

  /** A file of lines that each parse silently loads no city and prints no diagnostic. */
  lemma {:induction false} SilentLinesLoadNothing(lines: seq<string>)
    requires forall i :: 0 <= i < |lines| ==> ParseCity(lines[i]) == Silent
    ensures Load(lines) == [] && LoadDiagnostics(lines) == []
    decreases |lines|
  {
    if lines != [] {
      SilentLinesLoadNothing(lines[1..]);
    }
  }

  /** The thousands-separator lines of a city file are dropped without a diagnostic. */
  lemma SpringfieldIllinoisIsSilent()
    ensures ParseCity("Springfield, IL, 1,200") == Silent
  {
    SeparatedLineIsSilent("Springfield, IL, 1,200", ["Springfield", " IL", " 1", "200"]);
  }

  lemma SpringfieldMissouriIsSilent()
    ensures ParseCity("Springfield, MO, 2,500") == Silent
  {
    SeparatedLineIsSilent("Springfield, MO, 2,500", ["Springfield", " MO", " 2", "500"]);
  }
}
