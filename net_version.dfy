/**
 * Probing the installed .NET runtimes (src/RoslynCodeCompiler/GetNetVersion.cs).
 *
 * The text printed by `dotnet --list-runtimes` is an input: one runtime per line, of the
 * form `<component> <version> [<path>]`. Lines of the three runtime components yield a key
 * `".NET <major>"`; keys are collected in a set and then sorted by the number after
 * `".NET "`.
 */
module NetVersion {
  import opened Wrappers
  import opened Text

  // ---------------------------------------------------------------------------
  // System.Version
  // ---------------------------------------------------------------------------

  /** `System.Version`; `build` and `revision` are -1 when the text did not give them. */
  datatype SystemVersion = SystemVersion(major: int, minor: int, build: int, revision: int)

  predicate InInt32Range(n: int) { 0 <= n <= Int32Max }

  /** What a successfully constructed `Version` looks like: non-negative 32-bit components,
      and a revision only where there is a build. */
  predicate ValidVersion(v: SystemVersion)
  {
    && InInt32Range(v.major) && InInt32Range(v.minor)
    && (v.build == -1 || InInt32Range(v.build))
    && (v.revision == -1 || InInt32Range(v.revision))
    && (v.build == -1 ==> v.revision == -1)
  }

  /** One dot-separated component: `Int32.TryParse(…, NumberStyles.Integer, InvariantCulture)`
      that is not negative. */
  function ParseComponent(s: string): (r: Option<int>)
    ensures r.Some? ==> InInt32Range(r.value)
  {
    match ParseInt32(s)
    case Some(n) => if n >= 0 then Some(n) else None
    case None => None
  }

  /** The components a version has, in order: major and minor, then the build and the
      revision where they are given. */
  function Components(v: SystemVersion): seq<int>
  {
    [v.major, v.minor]
    + (if v.build >= 0 then [v.build] else [])
    + (if v.revision >= 0 then [v.revision] else [])
  }

  /** `new Version(text)`: two to four components separated by `'.'`, each a non-negative
      32-bit integer. `None` stands for every exception the constructor throws. The text
      gives a version exactly when it has two to four parts and every one of them is a
      component, and then the version's components are the parts' values, in order. */
  function ParseVersion(text: string): (r: Option<SystemVersion>)
    ensures var parts := Split(text, {'.'});
      r.Some? <==> 2 <= |parts| <= 4 && forall i :: 0 <= i < |parts| ==> ParseComponent(parts[i]).Some?
    ensures r.Some? ==> ValidVersion(r.value) && |Components(r.value)| == |Split(text, {'.'})|
    ensures var parts := Split(text, {'.'});
      r.Some? ==> forall i :: 0 <= i < |parts| ==> ParseComponent(parts[i]) == Some(Components(r.value)[i])
    ensures r.Some? ==> ParseComponent(Split(text, {'.'})[0]) == Some(r.value.major)
  {
    VersionOfPartsMeaning(Split(text, {'.'}));
    VersionOfParts(Split(text, {'.'}))
  }

  /** The components of a `Version`, read from the parts of its text. */
  function VersionOfParts(parts: seq<string>): Option<SystemVersion>
  {
    if |parts| < 2 || |parts| > 4 then None
    else if exists i :: 0 <= i < |parts| && ParseComponent(parts[i]).None? then None
    else
      Some(SystemVersion(
        ParseComponent(parts[0]).value,
        ParseComponent(parts[1]).value,
        if |parts| > 2 then ParseComponent(parts[2]).value else -1,
        if |parts| > 3 then ParseComponent(parts[3]).value else -1))
  }

  /** There is a version exactly when there are two to four parts, each a component; its
      components are then the parts' values, in order. */
  lemma VersionOfPartsMeaning(parts: seq<string>)
    ensures VersionOfParts(parts).Some? <==>
      2 <= |parts| <= 4 && forall i :: 0 <= i < |parts| ==> ParseComponent(parts[i]).Some?
    ensures var r := VersionOfParts(parts);
      r.Some? ==> ValidVersion(r.value) && |Components(r.value)| == |parts|
    ensures var r := VersionOfParts(parts);
      r.Some? ==> forall i :: 0 <= i < |parts| ==> ParseComponent(parts[i]) == Some(Components(r.value)[i])
  {
    var r := VersionOfParts(parts);
    if r.Some? {
      var v := r.value;
      assert ParseComponent(parts[0]).Some? && ParseComponent(parts[1]).Some?;
      if |parts| > 2 {
        assert ParseComponent(parts[2]).Some?;
      }
      if |parts| > 3 {
        assert ParseComponent(parts[3]).Some?;
      }
      var c := Components(v);
      assert |c| == |parts|;
      forall i | 0 <= i < |parts| ensures ParseComponent(parts[i]) == Some(c[i]) {
        if i == 0 {
        } else if i == 1 {
        } else if i == 2 {
        } else {
          assert i == 3;
        }
      }
    }
  }

  /** The components `Version.ToString()` prints. */
  function VersionParts(v: SystemVersion): (parts: seq<string>)
    requires ValidVersion(v)
    ensures 2 <= |parts| <= 4
    ensures forall i :: 0 <= i < |parts| ==> AllDigits(parts[i])
  {
    [Decimal(v.major), Decimal(v.minor)]
    + (if v.build >= 0 then [Decimal(v.build)] else [])
    + (if v.revision >= 0 then [Decimal(v.revision)] else [])
  }

  /** `Version.ToString()`. */
  function VersionText(v: SystemVersion): string
    requires ValidVersion(v)
  {
    Join(VersionParts(v), ".")
  }

  /** Parts whose components read as those of `v` make up `v`. */
  lemma ParseVersionOfParts(parts: seq<string>, v: SystemVersion)
    requires ValidVersion(v)
    requires |parts| == if v.build < 0 then 2 else if v.revision < 0 then 3 else 4
    requires ParseComponent(parts[0]) == Some(v.major) && ParseComponent(parts[1]) == Some(v.minor)
    requires |parts| > 2 ==> ParseComponent(parts[2]) == Some(v.build)
    requires |parts| > 3 ==> ParseComponent(parts[3]) == Some(v.revision)
    ensures VersionOfParts(parts) == Some(v)
  {
    forall i | 0 <= i < |parts| ensures ParseComponent(parts[i]).Some? {
      if i == 0 {
      } else if i == 1 {
      } else if i == 2 {
      } else {
        assert i == 3;
      }
    }
  }

  /** What `Decimal` prints for a non-negative 32-bit value is a component of that value. */
  lemma ParseComponentDecimal(n: int)
    requires InInt32Range(n)
    ensures ParseComponent(Decimal(n)) == Some(n)
  {
    ParseDecimal(n);
  }

  /** Every valid version survives printing and parsing again. */
  lemma ParseVersionText(v: SystemVersion)
    requires ValidVersion(v)
    ensures ParseVersion(VersionText(v)) == Some(v)
  {
    var parts := VersionParts(v);
    forall i | 0 <= i < |parts| ensures FreeOf(parts[i], {'.'}) {
      assert AllDigits(parts[i]);
    }
    SplitJoin(parts, '.');
    ParseComponentDecimal(v.major);
    ParseComponentDecimal(v.minor);
    if v.build >= 0 {
      ParseComponentDecimal(v.build);
    }
    if v.revision >= 0 {
      ParseComponentDecimal(v.revision);
    }
    ParseVersionOfParts(parts, v);
  }

  // ---------------------------------------------------------------------------
  // Parsing one line
  // ---------------------------------------------------------------------------

  /** The runtime components whose lines are considered (GetNetVersion.cs:61-63). */
  const NetCoreApp := "Microsoft.NETCore.App"
  const AspNetCoreApp := "Microsoft.AspNetCore.App"
  const WindowsDesktopApp := "Microsoft.WindowsDesktop.App"

  predicate IsRuntimeLine(line: string)
  {
    NetCoreApp <= line || AspNetCoreApp <= line || WindowsDesktopApp <= line
  }

  /** The major of the version in token 1 of `line.Split(' ')`, for a runtime line: the
      part the two `TryParse…` methods share. */
  function RuntimeMajor(line: string): (r: Option<int>)
    ensures r.Some? ==> InInt32Range(r.value)
  {
    if !IsRuntimeLine(line) then None
    else
      var parts := Split(line, {' '});
      if |parts| < 2 then None
      else
        match ParseVersion(parts[1])
        case None => None
        case Some(v) => Some(v.major)
  }

  /** The key `".NET <major>"` formatted at GetNetVersion.cs:77 and 108. */
  function NetKey(major: nat): string
  {
    ".NET " + Decimal(major)
  }

  /** `TryParseMajorVersion`: the key of any runtime line whose token 1 is a version. */
  function TryParseMajorVersion(line: string): (r: Option<string>)
    ensures r.Some? <==> IsRuntimeLine(line) && |Split(line, {' '})| >= 2 && ParseVersion(Split(line, {' '})[1]).Some?
    ensures r.Some? ==> IsNetKey(r.value) && r.value == NetKey(ParseVersion(Split(line, {' '})[1]).value.major)
  {
    match RuntimeMajor(line)
    case None => None
    case Some(m) => NetKeyIsKey(m); Some(NetKey(m))
  }

  /** `TryParseNet5PlusVersion`: as `TryParseMajorVersion`, but only for majors of 5 and up. */
  function TryParseNet5PlusVersion(line: string): (r: Option<string>)
    ensures r.Some? ==> IsRuntimeLine(line) && |Split(line, {' '})| >= 2
    ensures r.Some? ==> IsNetKey(r.value) && KeyMajor(r.value) >= 5
    ensures r.Some? ==> Some(KeyMajor(r.value)) == RuntimeMajor(line)
  {
    match RuntimeMajor(line)
    case None => None
    case Some(m) => if m < 5 then None else NetKeyIsKey(m); Some(NetKey(m))
  }

  /** A line as `dotnet --list-runtimes` prints it. */
  function RuntimeLine(component: string, v: SystemVersion, path: string): string
    requires ValidVersion(v)
  {
    component + " " + VersionText(v) + " " + path
  }

  lemma ComponentNamesFreeOfSpace()
    ensures FreeOf(NetCoreApp, {' '}) && FreeOf(AspNetCoreApp, {' '}) && FreeOf(WindowsDesktopApp, {' '})
  {
  }

  /** A printed version holds digits and dots only. */
  lemma VersionTextFreeOfSpace(v: SystemVersion)
    requires ValidVersion(v)
    ensures FreeOf(VersionText(v), {' '})
  {
    var parts := VersionParts(v);
    forall i | 0 <= i < |parts| ensures FreeOf(parts[i], {' '}) {
      assert AllDigits(parts[i]);
    }
    JoinFreeOf(parts, ".", ' ');
  }

  /** A line as `dotnet --list-runtimes` prints it, `<component> <version> <path>`, is
      accepted with the major of its version, by the Net5Plus parser only from 5 up. */
  lemma WellFormedLineAccepted(component: string, v: SystemVersion, path: string)
    requires component == NetCoreApp || component == AspNetCoreApp || component == WindowsDesktopApp
    requires ValidVersion(v)
    ensures TryParseMajorVersion(RuntimeLine(component, v, path)) == Some(NetKey(v.major))
    ensures TryParseNet5PlusVersion(RuntimeLine(component, v, path))
         == if v.major >= 5 then Some(NetKey(v.major)) else None
  {
    var text := VersionText(v);
    var line := component + " " + text + " " + path;
    ComponentNamesFreeOfSpace();
    VersionTextFreeOfSpace(v);
    assert line == component + [' '] + (text + [' '] + path);
    SplitAfterPart(component, ' ', text + [' '] + path);
    SplitAfterPart(text, ' ', path);
    assert Split(line, {' '})[1] == text;
    ParseVersionText(v);
    assert component <= line;
  }

  /** A line of any other component is rejected by both parsers. */
  lemma OtherComponentRejected(line: string)
    requires !IsRuntimeLine(line)
    ensures TryParseNet5PlusVersion(line) == None && TryParseMajorVersion(line) == None
  {
  }

  /** A line without a space has a single token and is rejected. */
  lemma SingleTokenRejected(line: string)
    requires ' ' !in line
    ensures TryParseNet5PlusVersion(line) == None && TryParseMajorVersion(line) == None
  {
    SplitParts(line, {' '});
    CountInAbsent(line, ' ');
  }

  lemma {:induction false} CountInAbsent(s: string, c: char)
    requires c !in s
    ensures CountIn(s, {c}) == 0
    decreases |s|
  {
    if s != [] {
      assert s[1..] <= s[1..];
      assert forall x :: x in s[1..] ==> x in s;
      CountInAbsent(s[1..], c);
    }
  }

  /** A double space after the component name makes token 1 empty, so the line is rejected:
      the version is always read from token 1 of a split on a single space. */
  lemma DoubleSpaceRejected(component: string, rest: string)
    requires ' ' !in component
    ensures TryParseNet5PlusVersion(component + "  " + rest) == None
    ensures TryParseMajorVersion(component + "  " + rest) == None
  {
    var line := component + "  " + rest;
    assert FreeOf(component, {' '});
    assert line == component + [' '] + ([' '] + rest);
    SplitAfterPart(component, ' ', [' '] + rest);
    assert ([' '] + rest) == [] + [' '] + rest;
    SplitAfterPart([], ' ', rest);
    assert Split(line, {' '})[1] == "";
    assert Split("", {'.'}) == [""];
  }

  /** A token 1 that is not a version makes the line rejected (rather than an exception). */
  lemma UnparsableVersionRejected(line: string)
    requires |Split(line, {' '})| >= 2 && ParseVersion(Split(line, {' '})[1]).None?
    ensures TryParseNet5PlusVersion(line) == None && TryParseMajorVersion(line) == None
  {
  }

  /** The two parsers agree wherever the major is 5 or more, and `TryParseNet5PlusVersion`
      rejects exactly the lines `TryParseMajorVersion` accepts with a smaller major. */
  lemma Net5PlusIsFilteredMajor(line: string)
    ensures TryParseNet5PlusVersion(line).Some? ==> TryParseMajorVersion(line) == TryParseNet5PlusVersion(line)
    ensures TryParseMajorVersion(line).Some? ==>
              (TryParseNet5PlusVersion(line).Some? <==> KeyMajor(TryParseMajorVersion(line).value) >= 5)
  {
    match RuntimeMajor(line)
    case None =>
    case Some(m) => NetKeyIsKey(m);
  }

  // ---------------------------------------------------------------------------
  // Keys and their order
  // ---------------------------------------------------------------------------

  /** `int.Parse(s.Replace(".NET ", ""))` of `CompareVersions`; `None` is the exception. */
  function ExtractVersion(s: string): (r: Option<int>)
    ensures r.Some? ==> Int32Min <= r.value <= Int32Max
  {
    ParseInt32(RemoveAll(s, ".NET "))
  }

  /** What is left once every `".NET "` is removed must be an integer literal, up to
      surrounding white space, whose value is a 32-bit one; that value is the result. */
  lemma ExtractVersionMeaning(s: string)
    ensures ExtractVersion(s).Some? ==>
      exists k :: IsIntegerLiteral(TrimWhite(RemoveAll(s, ".NET ")), k)
                    && ExtractVersion(s).value == LiteralValue(TrimWhite(RemoveAll(s, ".NET ")), k)
    ensures var t := TrimWhite(RemoveAll(s, ".NET "));
      forall k :: IsIntegerLiteral(t, k) && !(Int32Min <= LiteralValue(t, k) <= Int32Max) ==> ExtractVersion(s).None?
  {
    ParseInt32Meaning(RemoveAll(s, ".NET "));
  }

  /** A string that `NetKey` produces, read back by `ExtractVersion`. */
  predicate IsNetKey(k: string)
  {
    ExtractVersion(k).Some? && ExtractVersion(k).value >= 0 && k == NetKey(ExtractVersion(k).value)
  }

  function KeyMajor(k: string): nat
    requires IsNetKey(k)
  {
    ExtractVersion(k).value
  }

  /** Every formatted major is a key, and reading it back gives the major. */
  lemma NetKeyIsKey(m: nat)
    requires m <= Int32Max
    ensures ExtractVersion(NetKey(m)) == Some(m)
    ensures IsNetKey(NetKey(m)) && KeyMajor(NetKey(m)) == m
  {
    var k := NetKey(m);
    assert k[..5] == ".NET " && k[5..] == Decimal(m);
    assert Lacks(Decimal(m), ".NET ") by {
      var d := Decimal(m);
      forall i: nat | i <= |d| ensures !OccursAt(d, ".NET ", i) {
        if i + 5 <= |d| {
          assert IsDigit(d[i]) && d[i..i + 5][0] == d[i];
        }
      }
    }
    RemoveAllAbsent(Decimal(m), ".NET ");
    ParseDecimal(m);
  }

  /** `CompareVersions`: `Int32.CompareTo` of the two extracted numbers (-1, 0 or 1). */
  function CompareVersions(a: string, b: string): (r: Option<int>)
    ensures r.Some? ==> -1 <= r.value <= 1
    ensures IsNetKey(a) && IsNetKey(b) ==>
              r == Some(if KeyMajor(a) < KeyMajor(b) then -1 else if KeyMajor(a) == KeyMajor(b) then 0 else 1)
  {
    match (ExtractVersion(a), ExtractVersion(b))
    case (Some(x), Some(y)) => Some(if x < y then -1 else if x == y then 0 else 1)
    case _ => None
  }

  /** Keys are ordered by their number, not by their text: `".NET 9"` comes before `".NET 10"`. */
  lemma NumericOrder()
    ensures CompareVersions(NetKey(9), NetKey(10)) == Some(-1)
    ensures NetKey(9) == ".NET 9" && NetKey(10) == ".NET 10"
  {
    NetKeyIsKey(9);
    NetKeyIsKey(10);
  }

  /** Sorted by `CompareVersions` with no two keys comparing equal. */
  predicate StrictlyAscending(s: seq<string>)
  {
    forall i, j :: 0 <= i < j < |s| ==> CompareVersions(s[i], s[j]) == Some(-1)
  }

  /** A strictly ascending sequence has no repeated element. */
  lemma AscendingDistinct(s: seq<string>)
    requires StrictlyAscending(s)
    ensures forall i, j :: 0 <= i < j < |s| ==> s[i] != s[j]
  {
    forall i, j | 0 <= i < j < |s| ensures s[i] != s[j] {
      assert CompareVersions(s[i], s[j]) == Some(-1);
    }
  }

  lemma CompareAntisymmetric(x: string, y: string)
    ensures CompareVersions(x, y) == Some(-1) ==> CompareVersions(y, x) == Some(1) && x != y
  {
  }

  /** Two strictly ascending lists with the same keys start with the same key. */
  lemma AscendingHeads(a: seq<string>, b: seq<string>)
    requires StrictlyAscending(a) && StrictlyAscending(b)
    requires forall k :: k in a <==> k in b
    requires a != []
    ensures b != [] && a[0] == b[0]
  {
    assert a[0] in b;
    assert b[0] in a;
    if a[0] != b[0] {
      var i :| 0 <= i < |b| && b[i] == a[0];
      var j :| 0 <= j < |a| && a[j] == b[0];
      CompareAntisymmetric(b[0], b[i]);
      assert false;
    }
  }

  /** Their tails then have the same keys. */
  lemma AscendingTails(a: seq<string>, b: seq<string>)
    requires StrictlyAscending(a) && StrictlyAscending(b)
    requires forall k :: k in a <==> k in b
    requires a != [] && b != [] && a[0] == b[0]
    ensures forall k :: k in a[1..] <==> k in b[1..]
  {
    forall k ensures k in a[1..] <==> k in b[1..] {
      if k in a[1..] {
        var i :| 1 <= i < |a| && a[i] == k;
        CompareAntisymmetric(a[0], a[i]);
        assert k in b;
        var j :| 0 <= j < |b| && b[j] == k;
        assert b[1..][j - 1] == k;
      }
      if k in b[1..] {
        var i :| 1 <= i < |b| && b[i] == k;
        CompareAntisymmetric(b[0], b[i]);
        assert k in a;
        var j :| 0 <= j < |a| && a[j] == k;
        assert a[1..][j - 1] == k;
      }
    }
  }

  /** The sorted list is determined by the set of keys: whatever order the hash set is
      enumerated in, sorting yields the same list. */
  lemma {:induction false} AscendingUnique(a: seq<string>, b: seq<string>)
    requires StrictlyAscending(a) && StrictlyAscending(b)
    requires forall k :: k in a <==> k in b
    ensures a == b
    decreases |a|
  {
    if b != [] { assert b[0] in a; }
    if a != [] {
      AscendingHeads(a, b);
      AscendingTails(a, b);
      AscendingUnique(a[1..], b[1..]);
      assert a == [a[0]] + a[1..] && b == [b[0]] + b[1..];
    }
  }

  // ---------------------------------------------------------------------------
  // GetInstalledNet5PlusVersions
  // ---------------------------------------------------------------------------

  /** The keys accepted from the given lines: the content of the hash set after the loop. */
  function KeysOf(lines: seq<string>): (keys: set<string>)
    ensures forall k | k in keys :: IsNetKey(k) && KeyMajor(k) >= 5
    decreases |lines|
  {
    if lines == [] then {}
    else
      var previous := KeysOf(lines[..|lines| - 1]);
      match TryParseNet5PlusVersion(lines[|lines| - 1])
      case Some(k) => previous + {k}
      case None => previous
  }

  /** Every collected key comes from an accepted line. */
  lemma {:induction false} KeysOfSound(lines: seq<string>, k: string)
    requires k in KeysOf(lines)
    ensures exists i :: 0 <= i < |lines| && TryParseNet5PlusVersion(lines[i]) == Some(k)
    decreases |lines|
  {
    var init := lines[..|lines| - 1];
    if k in KeysOf(init) {
      KeysOfSound(init, k);
      var i :| 0 <= i < |init| && TryParseNet5PlusVersion(init[i]) == Some(k);
      assert lines[i] == init[i];
    } else {
      assert TryParseNet5PlusVersion(lines[|lines| - 1]) == Some(k);
    }
  }

  /** The key of every accepted line is collected. */
  lemma {:induction false} KeysOfComplete(lines: seq<string>, i: nat, k: string)
    requires i < |lines| && TryParseNet5PlusVersion(lines[i]) == Some(k)
    ensures k in KeysOf(lines)
    decreases |lines|
  {
    var init := lines[..|lines| - 1];
    KeysOfGrows(lines);
    if i < |lines| - 1 {
      assert init[i] == lines[i];
      KeysOfComplete(init, i, k);
    }
  }

  /** One more line keeps every key collected so far, and adds the key of that line. */
  lemma KeysOfGrows(lines: seq<string>)
    requires lines != []
    ensures var last := TryParseNet5PlusVersion(lines[|lines| - 1]);
      KeysOf(lines) == KeysOf(lines[..|lines| - 1]) + (if last.Some? then {last.value} else {})
  {
  }

  /** A key is collected exactly when some line is accepted with that key. */
  lemma KeysOfLines(lines: seq<string>, k: string)
    ensures k in KeysOf(lines) <==> exists i :: 0 <= i < |lines| && TryParseNet5PlusVersion(lines[i]) == Some(k)
  {
    if k in KeysOf(lines) {
      KeysOfSound(lines, k);
    }
    if exists i :: 0 <= i < |lines| && TryParseNet5PlusVersion(lines[i]) == Some(k) {
      var i :| 0 <= i < |lines| && TryParseNet5PlusVersion(lines[i]) == Some(k);
      KeysOfComplete(lines, i, k);
    }
  }

  /** Lines of several runtime components with the same version collapse to one key. */
  lemma SameMajorCollapses(v: SystemVersion, path1: string, path2: string)
    requires ValidVersion(v) && v.major >= 5
    ensures KeysOf([RuntimeLine(NetCoreApp, v, path1), RuntimeLine(AspNetCoreApp, v, path2)]) == {NetKey(v.major)}
  {
    WellFormedLineAccepted(NetCoreApp, v, path1);
    WellFormedLineAccepted(AspNetCoreApp, v, path2);
    var lines := [RuntimeLine(NetCoreApp, v, path1), RuntimeLine(AspNetCoreApp, v, path2)];
    assert lines[..1] == [lines[0]] && lines[..1][..0] == [];
    assert KeysOf(lines[..1]) == {NetKey(v.major)};
  }

  /** The key of the entry with the smallest major among `keys`. */
  method LeastKey(keys: set<string>) returns (least: string)
    requires keys != {}
    requires forall k | k in keys :: IsNetKey(k)
    ensures least in keys
    ensures forall k | k in keys :: KeyMajor(least) <= KeyMajor(k)
  {
    least :| least in keys;
    var rest := keys - {least};
    while rest != {}
      invariant rest <= keys && least in keys
      invariant forall k | k in keys && k !in rest :: KeyMajor(least) <= KeyMajor(k)
      decreases |rest|
    {
      var k :| k in rest;
      if CompareVersions(k, least) == Some(-1) {
        least := k;
      }
      rest := rest - {k};
    }
  }

  /** A key above every key of an ascending sequence extends it. */
  lemma AscendingAppend(sorted: seq<string>, k: string)
    requires StrictlyAscending(sorted) && IsNetKey(k)
    requires forall i :: 0 <= i < |sorted| ==> IsNetKey(sorted[i]) && KeyMajor(sorted[i]) < KeyMajor(k)
    ensures StrictlyAscending(sorted + [k])
  {
    var s := sorted + [k];
    forall i, j | 0 <= i < j < |s| ensures CompareVersions(s[i], s[j]) == Some(-1) {
      if j < |sorted| {
        assert s[i] == sorted[i] && s[j] == sorted[j];
      } else {
        assert s[i] == sorted[i] && s[j] == k;
      }
    }
  }

  /** `new List<string>(versions)` followed by `Sort(CompareVersions)`: the keys of the set,
      each once, in ascending order of their number. */
  method SortByMajor(keys: set<string>) returns (sorted: seq<string>)
    requires forall k | k in keys :: IsNetKey(k)
    ensures forall k :: k in sorted <==> k in keys
    ensures |sorted| == |keys|
    ensures StrictlyAscending(sorted)
  {
    sorted := [];
    var rest := keys;
    while rest != {}
      invariant rest <= keys
      invariant forall k :: k in sorted <==> k in keys && k !in rest
      invariant |sorted| + |rest| == |keys|
      invariant StrictlyAscending(sorted)
      invariant forall i, k :: 0 <= i < |sorted| && k in rest ==> KeyMajor(sorted[i]) < KeyMajor(k)
      decreases |rest|
    {
      var least := LeastKey(rest);
      forall k | k in rest && k != least ensures KeyMajor(least) < KeyMajor(k) {
        assert k == NetKey(KeyMajor(k)) && least == NetKey(KeyMajor(least));
      }
      AscendingAppend(sorted, least);
      sorted := sorted + [least];
      assert rest == (rest - {least}) + {least};
      rest := rest - {least};
    }
  }

  /** `GetInstalledNet5PlusVersions`, with the output of `dotnet --list-runtimes` as input;
      `None` is a command that could not be run (the exception the method swallows). */
  method GetInstalledNet5PlusVersions(output: Option<string>) returns (result: seq<string>)
    ensures output.None? ==> result == []
    ensures output.Some? ==> forall k :: k in result <==> k in KeysOf(SplitLines(output.value))
    ensures forall k | k in result :: IsNetKey(k) && KeyMajor(k) >= 5
    ensures StrictlyAscending(result)
    ensures forall i, j :: 0 <= i < j < |result| ==> result[i] != result[j]
  {
    var versions: set<string> := {};
    if output.Some? {
      versions := CollectVersions(SplitLines(output.value));
    }
    result := SortByMajor(versions);
    AscendingDistinct(result);
  }

  /** The `foreach` over the lines of `GetInstalledNet5PlusVersions`: the hash set holds
      the key of every accepted line. */
  method CollectVersions(lines: seq<string>) returns (versions: set<string>)
    ensures versions == KeysOf(lines)
  {
    versions := {};
    for i := 0 to |lines|
      invariant versions == KeysOf(lines[..i])
    {
      assert lines[..i + 1][..i] == lines[..i];
      KeysOfGrows(lines[..i + 1]);
      var version := TryParseNet5PlusVersion(lines[i]);
      if version.Some? {
        versions := versions + {version.value};
      }
    }
    assert lines[..|lines|] == lines;
  }
}
