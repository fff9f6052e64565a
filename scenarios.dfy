/**
 * Concrete runs of the model on small inputs: display names, a directory
 * with a hidden and a foreign file, and a session that launches a game.
 */
module Scenarios {
  import opened CStrings
  import opened GameFiles
  import opened Navigation
  import opened Launch
  import opened Session

  /** Only the final suffix is stripped; a name without a dot is kept whole. */
  lemma DisplayNames()
    ensures StripExtension("Zork.z5") == "Zork"
    ensures StripExtension("my.game.dat") == "my.game"
    ensures StripExtension("noext") == "noext"
  {
    LastIndexAt("Zork.z5", '.', 4);
    LastIndexAt("my.game.dat", '.', 7);
  }

  /** "a.z5" is listed as "a" under games/. */
  lemma FirstFile()
    ensures Accepted("a.z5") && EntryFor("a.z5") == GameEntry("games/a.z5", "a")
  {
    var file := "a.z5";
    assert file[0] == 'a' && file[1] == '.';
    assert file[..1] == "a";
    LastIndexAt(file, '.', 1);
    assert file[1..] == ".z5";
    assert LowerAscii(".z5") == ".z5";
    assert CaseEqual(file[1..], ".z5");
    assert IsGameFile(file) && !IsHidden(file);
    assert StripExtension(file) == file[..1] == "a";
    assert GAMES_PREFIX + file == "games/a.z5";
  }

  /** "b.zblorb" is listed as "b" under games/. */
  lemma SecondFile()
    ensures Accepted("b.zblorb") && EntryFor("b.zblorb") == GameEntry("games/b.zblorb", "b")
  {
    var file := "b.zblorb";
    assert file[0] == 'b' && file[1] == '.';
    assert file[..1] == "b";
    LastIndexAt(file, '.', 1);
    assert file[1..] == ".zblorb";
    assert LowerAscii(".zblorb") == ".zblorb";
    assert CaseEqual(file[1..], ".zblorb");
    assert IsGameFile(file) && !IsHidden(file);
    assert StripExtension(file) == file[..1] == "b";
    assert GAMES_PREFIX + file == "games/b.zblorb";
  }

  /** ".txt" is not a known extension. */
  lemma ForeignFile()
    ensures !Accepted("readme.txt")
  {
    LastIndexAt("readme.txt", '.', 6);
    assert "readme.txt"[6..] == ".txt";
    assert LowerAscii(".txt")[1] == 't';
  }

  /** The two game files, one after the other. */
  lemma GamesExample()
    ensures Entries(["a.z5", "b.zblorb"]) == [GameEntry("games/a.z5", "a"), GameEntry("games/b.zblorb", "b")]
  {
    FirstFile();
    SecondFile();
    EntriesOfTwo("a.z5", "b.zblorb");
  }

  /** A foreign file and a hidden one after them add nothing. */
  lemma IgnoredExample()
    ensures Entries(["a.z5", "b.zblorb", "readme.txt", ".hidden.z5"]) == Entries(["a.z5", "b.zblorb"])
  {
    ForeignFile();
    EntriesSingle("readme.txt");
    EntriesSingle(".hidden.z5");
    EntriesAppend(["a.z5", "b.zblorb"], ["readme.txt"]);
    EntriesAppend(["a.z5", "b.zblorb", "readme.txt"], [".hidden.z5"]);
    assert ["a.z5", "b.zblorb"] + ["readme.txt"] == ["a.z5", "b.zblorb", "readme.txt"];
    assert ["a.z5", "b.zblorb", "readme.txt"] + [".hidden.z5"] == ["a.z5", "b.zblorb", "readme.txt", ".hidden.z5"];
  }

  /** Hidden names and unknown extensions are dropped; the rest keep their order. */
  lemma ScanExample()
    ensures Scan(["a.z5", "b.zblorb", "readme.txt", ".hidden.z5"]) ==
      [GameEntry("games/a.z5", "a"), GameEntry("games/b.zblorb", "b")]
  {
    GamesExample();
    IgnoredExample();
  }

  /** Both flags are found in the argument vector. */
  lemma FlagsExample()
    ensures HasArg(["frotzl", "-k", "-F"], "-k") && HasArg(["frotzl", "-k", "-F"], "-F")
  {
    var argv := ["frotzl", "-k", "-F"];
    assert argv[1] == "-k" && argv[2] == "-F";
  }

  /** DOWN moves to the second game, RETURN confirms it. */
  lemma PollExample()
    ensures Poll(Cursor(0, 0), [KeyDown(Down), KeyDown(Return)], 2, 12) == (Confirm, Cursor(1, 0))
  {
    var events := [KeyDown(Down), KeyDown(Return)];
    assert events[1..] == [KeyDown(Return)];
  }

  /** The flags come before the quoted path. */
  lemma CommandExample()
    ensures CommandLine(Request("games/b.zblorb", true, true)) == "./sfrotz -k -F \"games/b.zblorb\""
  {
  }

  /** With -k and -F, DOWN then RETURN launches the second game with both flags. */
  lemma LaunchExample()
    ensures MainFlow(["frotzl", "-k", "-F"], true, Some(["a.z5", "b.zblorb", "readme.txt", ".hidden.z5"]),
                     [[KeyDown(Down), KeyDown(Return)]], 480) ==
      Launched("./sfrotz -k -F \"games/b.zblorb\"")
  {
    var games := Scan(["a.z5", "b.zblorb", "readme.txt", ".hidden.z5"]);
    ScanExample();
    FlagsExample();
    assert VisibleItems(480) == 12;
    var passes := [[KeyDown(Down), KeyDown(Return)]];
    PollExample();
    CommandExample();
    assert RunPasses(Cursor(0, 0), passes, games, true, true, 12) == Launched("./sfrotz -k -F \"games/b.zblorb\"");
  }
}
