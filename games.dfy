/**
 * The game-file filter and the derivation of list entries from directory
 * entry names (is_game_file and the body of scan_games in frotzl.c).
 */
module GameFiles {
  import opened CStrings

  /** Capacity of the launcher's game table. */
  const MAX_GAMES: nat := 256
  /** Size of a GameEntry's path buffer, terminator included. */
  const MAX_PATH_LEN: nat := 512
  /** Size of a GameEntry's name buffer, terminator included. */
  const NAME_LEN: nat := 256

  const GAMES_PREFIX: string := "games/"

  /** The recognised extensions, each one dot followed by lower-case letters and digits. */
  const EXTENSIONS: seq<string> := [".z3", ".z4", ".z5", ".z8", ".zblorb", ".zlb", ".dat"]

  /** One row of the game list: where the file is and what to call it. */
  datatype GameEntry = GameEntry(path: string, name: string)

  /** The seven strcasecmp tests of is_game_file on the part from the last '.'. */
  predicate KnownExtension(ext: string)
  {
    CaseEqual(ext, ".z3") || CaseEqual(ext, ".z4") || CaseEqual(ext, ".z5") ||
    CaseEqual(ext, ".z8") || CaseEqual(ext, ".zblorb") || CaseEqual(ext, ".zlb") ||
    CaseEqual(ext, ".dat")
  }

  /** is_game_file: the part of the name from its last '.' is a known extension, ignoring case. */
  predicate IsGameFile(file: string)
  {
    match LastIndexOf(file, '.')
    case None => false
    case Some(k) => KnownExtension(file[k..])
  }

  /** Names starting with '.' are skipped by the scan. */
  predicate IsHidden(file: string)
  {
    |file| > 0 && file[0] == '.'
  }

  /** A directory entry that the scan turns into a GameEntry. */
  predicate Accepted(file: string)
  {
    !IsHidden(file) && IsGameFile(file)
  }

  /**
   * The display name: the name cut at its last '.', so only the final
   * suffix goes and earlier dots stay.
   */
  function StripExtension(s: string): (r: string)
    ensures '.' !in s ==> r == s
    ensures '.' in s ==> |r| < |s| && s[..|r|] == r && s[|r|] == '.' && '.' !in s[|r| + 1..]
  {
    match LastIndexOf(s, '.')
    case None => s
    case Some(k) => s[..k]
  }

  /**
   * The entry the scan writes for an accepted file: the path is printed with
   * snprintf into MAX_PATH_LEN bytes, the name is copied with strncpy into
   * NAME_LEN - 1 bytes and then cut at its last '.'.
   */
  function EntryFor(file: string): (e: GameEntry)
    ensures |e.path| < MAX_PATH_LEN && |e.name| < NAME_LEN
    ensures |file| < NAME_LEN ==> e.path == GAMES_PREFIX + file && e.name == StripExtension(file)
  {
    GameEntry(Prefix(GAMES_PREFIX + file, MAX_PATH_LEN - 1),
              StripExtension(Prefix(file, NAME_LEN - 1)))
  }

  /**
   * The shape of scan_games' loop: the names that pass keep, each converted,
   * in listing order.
   */
  function FilterMap(names: seq<string>, keep: string -> bool, convert: string -> GameEntry): seq<GameEntry>
  {
    if |names| == 0 then []
    else
      var last := names[|names| - 1];
      FilterMap(names[..|names| - 1], keep, convert) + (if keep(last) then [convert(last)] else [])
  }

  /** The entries of all accepted names, in directory order, with no cap. */
  function Entries(names: seq<string>): seq<GameEntry>
  {
    FilterMap(names, Accepted, EntryFor)
  }

  /** What scan_games leaves in the table: the first MAX_GAMES entries. */
  function Scan(names: seq<string>): (r: seq<GameEntry>)
    ensures |r| <= MAX_GAMES
    ensures r <= Entries(names)
    ensures |r| == MAX_GAMES || r == Entries(names)
  {
    var all := Entries(names);
    if |all| <= MAX_GAMES then all else all[..MAX_GAMES]
  }

  /** Each extension is a dot followed by non-dot characters and is already lower case. */
  lemma ExtensionShape(e: string)
    requires e in EXTENSIONS
    ensures |e| >= 2 && e[0] == '.' && '.' !in e[1..] && LowerAscii(e) == e
  {
  }

  /** A name that ends, ignoring case, with extension e has its last '.' where e starts. */
  lemma {:induction false} LastDotOfSuffix(file: string, e: string)
    requires e in EXTENSIONS && |e| <= |file| && LowerAscii(file[|file| - |e|..]) == e
    ensures LastIndexOf(file, '.') == Some(|file| - |e|)
  {
    ExtensionShape(e);
    var k := |file| - |e|;
    var tail := file[k..];
    assert ToLower(tail[0]) == e[0];
    forall j | k < j < |file|
      ensures file[j] != '.'
    {
      assert tail[j - k] == file[j];
      assert ToLower(tail[j - k]) == e[j - k];
      assert e[j - k] in e[1..];
    }
  }

  /** The seven tests amount to: folded to lower case, the part is one of EXTENSIONS. */
  lemma KnownExtensionIff(ext: string)
    ensures KnownExtension(ext) <==> LowerAscii(ext) in EXTENSIONS
  {
    forall e | e in EXTENSIONS
      ensures LowerAscii(e) == e
    {
      ExtensionShape(e);
    }
  }

  /** A game file ends with its extension, ignoring case. */
  lemma GameFileEndsWithExtension(file: string) returns (e: string)
    requires IsGameFile(file)
    ensures e in EXTENSIONS && |e| <= |file| && LowerAscii(file[|file| - |e|..]) == e
  {
    var k := LastIndexOf(file, '.').value;
    var ext := file[k..];
    KnownExtensionIff(ext);
    e := LowerAscii(ext);
    assert |e| == |ext|;
    assert file[|file| - |e|..] == ext;
  }

  /** A name ending with an extension, ignoring case, is a game file. */
  lemma EndsWithExtensionIsGameFile(file: string, e: string)
    requires e in EXTENSIONS && |e| <= |file| && LowerAscii(file[|file| - |e|..]) == e
    ensures IsGameFile(file)
  {
    LastDotOfSuffix(file, e);
    KnownExtensionIff(file[|file| - |e|..]);
  }

  /**
   * is_game_file accepts exactly the names that end, ignoring ASCII case,
   * with one of the seven extensions.
   */
  lemma IsGameFileIff(file: string)
    ensures IsGameFile(file) <==>
      exists e :: e in EXTENSIONS && |e| <= |file| && LowerAscii(file[|file| - |e|..]) == e
  {
    if IsGameFile(file) {
      var e := GameFileEndsWithExtension(file);
    }
    if exists e :: e in EXTENSIONS && |e| <= |file| && LowerAscii(file[|file| - |e|..]) == e {
      var e :| e in EXTENSIONS && |e| <= |file| && LowerAscii(file[|file| - |e|..]) == e;
      EndsWithExtensionIsGameFile(file, e);
    }
  }

  /** A name without any '.' is never a game file. */
  lemma NoDotIsNotGameFile(file: string)
    requires '.' !in file
    ensures !IsGameFile(file)
  {
  }

  /** The display name followed by the extension that was tested gives back the file name. */
  lemma StripExtensionOfGameFile(file: string)
    requires IsGameFile(file)
    ensures file == StripExtension(file) + file[|StripExtension(file)|..]
    ensures KnownExtension(file[|StripExtension(file)|..])
  {
  }

  /** The filter-map of a concatenation is the concatenation of the filter-maps. */
  lemma {:induction false} FilterMapAppend(a: seq<string>, b: seq<string>, keep: string -> bool,
                                           convert: string -> GameEntry)
    ensures FilterMap(a + b, keep, convert) == FilterMap(a, keep, convert) + FilterMap(b, keep, convert)
    decreases |b|
  {
    if |b| == 0 {
      assert a + b == a;
    } else {
      var b' := b[..|b| - 1];
      assert (a + b)[..|a + b| - 1] == a + b';
      FilterMapAppend(a, b', keep, convert);
    }
  }

  /** One more name at the end contributes its converted form exactly when it is kept. */
  lemma FilterMapStep(names: seq<string>, i: nat, keep: string -> bool, convert: string -> GameEntry)
    requires i < |names|
    ensures FilterMap(names[..i + 1], keep, convert) ==
      FilterMap(names[..i], keep, convert) + (if keep(names[i]) then [convert(names[i])] else [])
  {
    assert names[..i + 1][..i] == names[..i];
  }

  /** Two kept names give their two converted forms, in order. */
  lemma FilterMapOfTwo(first: string, second: string, keep: string -> bool, convert: string -> GameEntry)
    requires keep(first) && keep(second)
    ensures FilterMap([first, second], keep, convert) == [convert(first), convert(second)]
  {
    var names := [first, second];
    assert names[..1] == [first] && [first][..0] == [];
    assert FilterMap([first], keep, convert) == [convert(first)];
  }

  /** Every element of a filter-map is some kept name, converted. */
  lemma {:induction false} FilterMapHasSource(names: seq<string>, keep: string -> bool, convert: string -> GameEntry,
                                              e: GameEntry) returns (j: nat)
    requires e in FilterMap(names, keep, convert)
    ensures j < |names| && keep(names[j]) && e == convert(names[j])
  {
    var init := names[..|names| - 1];
    if e in FilterMap(init, keep, convert) {
      j := FilterMapHasSource(init, keep, convert, e);
      assert names[j] == init[j];
    } else {
      j := |names| - 1;
    }
  }

  /** Every kept name contributes its converted form. */
  lemma {:induction false} SourceInFilterMap(names: seq<string>, keep: string -> bool, convert: string -> GameEntry,
                                             j: nat)
    requires j < |names| && keep(names[j])
    ensures convert(names[j]) in FilterMap(names, keep, convert)
  {
    var init := names[..|names| - 1];
    if j < |init| {
      assert names[j] == init[j];
      SourceInFilterMap(init, keep, convert, j);
    }
  }

  /** The entry list of a concatenation is the concatenation of the entry lists: order is kept. */
  lemma EntriesAppend(a: seq<string>, b: seq<string>)
    ensures Entries(a + b) == Entries(a) + Entries(b)
  {
    FilterMapAppend(a, b, Accepted, EntryFor);
  }

  /** Reading one more name adds its entry, if it is accepted, at the end. */
  lemma EntriesStep(names: seq<string>, i: nat)
    requires i < |names|
    ensures Entries(names[..i + 1]) == Entries(names[..i]) + (if Accepted(names[i]) then [EntryFor(names[i])] else [])
  {
    FilterMapStep(names, i, Accepted, EntryFor);
  }

  /** A single name contributes its entry exactly when it is accepted. */
  lemma EntriesSingle(file: string)
    ensures Entries([file]) == if Accepted(file) then [EntryFor(file)] else []
  {
    FilterMapStep([file], 0, Accepted, EntryFor);
    assert [file][..1] == [file] && [file][..0] == [];
  }

  /** Two accepted names in a row give their two entries, in that order. */
  lemma EntriesOfTwo(first: string, second: string)
    requires Accepted(first) && Accepted(second)
    ensures Entries([first, second]) == [EntryFor(first), EntryFor(second)]
  {
    FilterMapOfTwo(first, second, Accepted, EntryFor);
  }

  /** Every listed entry is produced by some accepted name. */
  lemma EntryHasSource(names: seq<string>, e: GameEntry) returns (j: nat)
    requires e in Entries(names)
    ensures j < |names| && Accepted(names[j]) && e == EntryFor(names[j])
  {
    j := FilterMapHasSource(names, Accepted, EntryFor, e);
  }

  /** Every accepted name produces a listed entry. */
  lemma SourceHasEntry(names: seq<string>, j: nat)
    requires j < |names| && Accepted(names[j])
    ensures EntryFor(names[j]) in Entries(names)
  {
    SourceInFilterMap(names, Accepted, EntryFor, j);
  }

  /** An entry is listed exactly when some accepted name produces it. */
  lemma EntriesMember(names: seq<string>, e: GameEntry)
    ensures e in Entries(names) <==>
      exists j :: 0 <= j < |names| && Accepted(names[j]) && e == EntryFor(names[j])
  {
    if e in Entries(names) {
      var j := EntryHasSource(names, e);
    }
    if exists j :: 0 <= j < |names| && Accepted(names[j]) && e == EntryFor(names[j]) {
      var j :| 0 <= j < |names| && Accepted(names[j]) && e == EntryFor(names[j]);
      SourceHasEntry(names, j);
    }
  }

  /** Once the table is full, whatever the directory yields afterwards is ignored. */
  lemma ScanIgnoresLater(names: seq<string>, more: seq<string>)
    requires |Scan(names)| == MAX_GAMES
    ensures Scan(names + more) == Scan(names)
  {
    EntriesAppend(names, more);
  }

  /**
   * Reading the directory up to its end, or until the table is full, leaves
   * exactly the scan's table.
   */
  lemma ScanStopsWhenFull(names: seq<string>, i: nat)
    requires i <= |names| && |Entries(names[..i])| <= MAX_GAMES
    requires i == |names| || |Entries(names[..i])| == MAX_GAMES
    ensures Scan(names) == Entries(names[..i])
  {
    if i == |names| {
      assert names[..i] == names;
    } else {
      assert names == names[..i] + names[i..];
      ScanIgnoresLater(names[..i], names[i..]);
    }
  }

  /** Every listed entry comes from an accepted name; for a name that fits the buffers it is exact. */
  lemma ScanEntryShape(names: seq<string>, i: nat)
    requires i < |Scan(names)|
    ensures exists j :: 0 <= j < |names| && Accepted(names[j]) && Scan(names)[i] == EntryFor(names[j])
    ensures forall j :: 0 <= j < |names| && Scan(names)[i] == EntryFor(names[j]) && |names[j]| < NAME_LEN ==>
      Scan(names)[i].path == GAMES_PREFIX + names[j] && Scan(names)[i].name == StripExtension(names[j])
  {
    EntriesMember(names, Scan(names)[i]);
  }

  /** Every listed path fits the path buffer, so launch_game never has to cut it. */
  lemma ScanPathsFit(names: seq<string>)
    ensures forall i :: 0 <= i < |Scan(names)| ==> |Scan(names)[i].path| < MAX_PATH_LEN
  {
    forall i | 0 <= i < |Scan(names)|
      ensures |Scan(names)[i].path| < MAX_PATH_LEN
    {
      var j := EntryHasSource(names, Scan(names)[i]);
    }
  }
}
