/** The recipes of the build file, as `make` reads them from its text: a header and the
    tab-indented lines under it. */
module Recipes {
  import opened Texts
  import opened Options
  import opened Packages
  import opened CrawlModel
  import opened BuildOrder
  import opened MakefileText
  import opened BuildFile
  import opened BuildTheorems

  datatype Recipe = Recipe(header: Header, commands: seq<string>)

  predicate IsCommand(line: string) { line != "" && line[0] == '\t' }

  /** The commands that the lines start with. */
  function Commands(lines: seq<string>): seq<string> {
    if lines == [] || !IsCommand(lines[0]) then [] else [lines[0][1..]] + Commands(lines[1..])
  }

  function RecipesIn(lines: seq<string>): seq<Recipe> {
    if lines == [] then [] else RecipeAtHead(lines) + RecipesIn(lines[1..])
  }

  function RecipeAtHead(lines: seq<string>): seq<Recipe>
    requires lines != []
  {
    if IsHeader(lines[0]) then [Recipe(ReadHeader(lines[0]), Commands(lines[1..]))] else []
  }

  function ReadRecipes(text: string): seq<Recipe> {
    RecipesIn(Lines(text))
  }

  /** The directory a build command changes to: from `cd ./` to the first `;`. */
  function Directory(command: string): Option<string> {
    if |command| >= 5 && command[..5] == "cd ./" && ';' in command then
      Some(command[5..5 + Find(command[5..], ';')])
    else None
  }

  // ------------------------------------------------------------- reading line by line

  lemma {:induction false} CommandsAppend(a: seq<string>, b: seq<string>)
    requires b == [] || !IsCommand(b[0])
    ensures Commands(a + b) == Commands(a)
    decreases |a|
  {
    if a == [] {
      assert a + b == b;
    } else {
      assert (a + b)[1..] == a[1..] + b;
      CommandsAppend(a[1..], b);
    }
  }

  lemma HeadAppend(a: seq<string>, b: seq<string>)
    requires a != [] && (b == [] || !IsCommand(b[0]))
    ensures RecipeAtHead(a + b) == RecipeAtHead(a)
  {
    assert (a + b)[1..] == a[1..] + b;
    CommandsAppend(a[1..], b);
  }

  /** Lines that start with no command leave the recipes before them as they are. */
  lemma {:induction false} RecipesAppend(a: seq<string>, b: seq<string>)
    requires b == [] || !IsCommand(b[0])
    ensures RecipesIn(a + b) == RecipesIn(a) + RecipesIn(b)
    decreases |a|
  {
    if a == [] {
      assert a + b == b;
    } else {
      assert (a + b)[1..] == a[1..] + b;
      HeadAppend(a, b);
      RecipesAppend(a[1..], b);
    }
  }

  lemma OneCommand(line: string, lines: seq<string>)
    requires IsCommand(line)
    ensures Commands([line] + lines) == [line[1..]] + Commands(lines)
    ensures RecipesIn([line] + lines) == RecipesIn(lines)
  {
    assert ([line] + lines)[1..] == lines;
  }

  lemma NoRecipe(line: string, lines: seq<string>)
    requires !IsHeader(line)
    ensures RecipesIn([line] + lines) == RecipesIn(lines)
  {
    assert ([line] + lines)[1..] == lines;
  }

  lemma OneRecipe(line: string, lines: seq<string>)
    requires IsHeader(line)
    ensures RecipesIn([line] + lines) == [Recipe(ReadHeader(line), Commands(lines))] + RecipesIn(lines)
  {
    assert ([line] + lines)[1..] == lines;
  }

  lemma ThreeCommands(a: string, b: string, c: string)
    requires IsCommand(a) && IsCommand(b) && IsCommand(c)
    ensures Commands([a, b, c, ""]) == [a[1..], b[1..], c[1..]]
    ensures RecipesIn([a, b, c, ""]) == []
  {
    var d := [""];
    assert d[1..] == [];
    assert [a, b, c, ""] == [a] + ([b] + ([c] + d));
    OneCommand(c, d);
    OneCommand(b, [c] + d);
    OneCommand(a, [b] + ([c] + d));
    assert [a[1..]] + ([b[1..]] + ([c[1..]] + [])) == [a[1..], b[1..], c[1..]];
  }

  /** What a rule is to do: say so, build in the package's directory, and install. */
  function RecipeOf(r: Rule): Recipe {
    Recipe(Header(r.archive + ".deb", Debs(r.deps)),
           ["@echo Building package " + r.name,
            "cd ./" + r.dir + ";" + " dpkg-buildpackage -b -k37FC6E55 -d -rfakeroot",
            "sudo dpkg -i ${@}"])
  }

  lemma BuildText()
    ensures "; dpkg-buildpackage" == ";" + " dpkg-buildpackage"
    ensures " dpkg-buildpackage" + " -b -k37FC6E55" == " dpkg-buildpackage -b -k37FC6E55"
  {
  }

  lemma BuildFlags()
    ensures " dpkg-buildpackage -b -k37FC6E55" + " -d -rfakeroot" == " dpkg-buildpackage -b -k37FC6E55 -d -rfakeroot"
  {
  }

  lemma Tabbed(tab: string, cd: string, dir: string, a: string, b: string, c: string, d: string)
    ensures tab + cd + dir + (a + b) + c + d == tab + (cd + dir + a + (b + c + d))
  {
  }

  lemma TabOff(text: string)
    ensures ("\t" + text)[1..] == text && IsCommand("\t" + text)
  {
  }

  lemma BuildCommand(dir: string)
    ensures "\tcd ./" + dir + "; dpkg-buildpackage" + " -b -k37FC6E55" + " -d -rfakeroot"
         == "\t" + ("cd ./" + dir + ";" + " dpkg-buildpackage -b -k37FC6E55 -d -rfakeroot")
  {
    BuildText();
    BuildFlags();
    assert "\tcd ./" == "\t" + "cd ./";
    Tabbed("\t", "cd ./", dir, ";", " dpkg-buildpackage", " -b -k37FC6E55", " -d -rfakeroot");
  }

  lemma RuleCommands(r: Rule)
    ensures IsCommand(EchoLine(r)) && IsCommand(BuildLine(r)) && IsCommand(InstallLine())
    ensures [EchoLine(r)[1..], BuildLine(r)[1..], InstallLine()[1..]] == RecipeOf(r).commands
  {
    BuildCommand(r.dir);
    TabOff("cd ./" + r.dir + ";" + " dpkg-buildpackage -b -k37FC6E55 -d -rfakeroot");
    assert EchoLine(r)[1..] == "@echo Building package " + r.name;
  }

  lemma RuleRecipe(r: Rule)
    requires Clean(r)
    ensures RecipesIn(RuleLines(r)) == [RecipeOf(r)]
  {
    var tail := [EchoLine(r), BuildLine(r), InstallLine(), ""];
    HeaderReads(r);
    RuleCommands(r);
    ThreeCommands(EchoLine(r), BuildLine(r), InstallLine());
    OneRecipe(HeaderLine(r), tail);
    assert RuleLines(r) == [HeaderLine(r)] + tail;
  }

  lemma RuleStart(r: Rule)
    requires Clean(r)
    ensures !IsCommand(RuleLines(r)[0])
  {
    HeaderReads(r);
  }

  function RuleRecipes(rules: seq<Rule>): (r: seq<Recipe>)
    ensures |r| == |rules| && forall i :: 0 <= i < |r| ==> r[i] == RecipeOf(rules[i])
  {
    seq(|rules|, i requires 0 <= i < |rules| => RecipeOf(rules[i]))
  }

  lemma {:induction false} RulesRecipes(rules: seq<Rule>)
    requires forall r :: r in rules ==> Clean(r)
    ensures RecipesIn(RulesLines(rules)) == RuleRecipes(rules)
  {
    if rules == [] {
    } else {
      var front, last := rules[..|rules| - 1], rules[|rules| - 1];
      RulesRecipes(front);
      RuleStart(last);
      RuleRecipe(last);
      RecipesAppend(RulesLines(front), RuleLines(last));
      RuleRecipesLast(rules);
    }
  }

  lemma RuleRecipesLast(rules: seq<Rule>)
    requires rules != []
    ensures RuleRecipes(rules) == RuleRecipes(rules[..|rules| - 1]) + [RecipeOf(rules[|rules| - 1])]
  {
  }

  function RemovalCommands(names: seq<string>): (r: seq<string>)
    ensures |r| == |names| && forall i :: 0 <= i < |r| ==> r[i] == "-sudo dpkg -r " + names[i]
  {
    seq(|names|, i requires 0 <= i < |names| => "-sudo dpkg -r " + names[i])
  }

  lemma RemoveCommand(name: string)
    ensures IsCommand(RemoveLine(name)) && RemoveLine(name)[1..] == "-sudo dpkg -r " + name
  {
  }

  lemma {:induction false} RemoveCommands(names: seq<string>)
    ensures Commands(RemoveLines(names) + [""]) == RemovalCommands(names)
    ensures RecipesIn(RemoveLines(names) + [""]) == []
    decreases |names|
  {
    if names == [] {
      assert RemoveLines(names) + [""] == [""] && [""][1..] == [];
    } else {
      var line, rest := RemoveLine(names[0]), RemoveLines(names[1..]) + [""];
      assert RemoveLines(names) + [""] == [line] + rest;
      RemoveCommands(names[1..]);
      RemoveCommand(names[0]);
      OneCommand(line, rest);
      assert RemovalCommands(names) == ["-sudo dpkg -r " + names[0]] + RemovalCommands(names[1..]);
    }
  }

  /** The two fixed recipes at the top. */
  lemma PreambleRecipes(first: string)
    requires OneWord(first)
    ensures RecipesIn(Preamble(first)) ==
      [Recipe(Header(".PHONY", ["all", "uninstall"]), []), Recipe(Header("all", [first + ".deb"]), [])]
  {
    var a, b := PHONY + ":" + (" " + (ALL + " " + UNINSTALL)), AllLine(first);
    TwoPrereqs(PHONY, ALL, UNINSTALL);
    AllHeader(first);
    var last := [""];
    assert last[1..] == [];
    assert RecipesIn(last) == [];
    OneRecipe(b, last);
    NoRecipe("", [b] + last);
    OneRecipe(a, [""] + ([b] + last));
    assert Preamble(first) == [a] + ([""] + ([b] + last));
  }

  lemma UninstallRecipe(names: seq<string>)
    ensures RecipesIn([UNINSTALL + ":"] + (RemoveLines(names) + [""])) ==
      [Recipe(Header("uninstall", []), RemovalCommands(names))]
  {
    UninstallLine();
    RemoveCommands(names);
    OneRecipe(UNINSTALL + ":", RemoveLines(names) + [""]);
  }

  lemma UninstallLine()
    ensures IsHeader(UNINSTALL + ":") && ReadHeader(UNINSTALL + ":") == Header("uninstall", [])
  {
    UninstallHeader();
    var line := UNINSTALL + ":";
    assert [line][1..] == [];
    assert Headers([line]) == HeaderOf(line) + [];
  }

  function AllRecipes(first: string, rules: seq<Rule>): seq<Recipe> {
    [Recipe(Header(".PHONY", ["all", "uninstall"]), []), Recipe(Header("all", [first + ".deb"]), [])]
    + RuleRecipes(rules)
    + [Recipe(Header("uninstall", []), RemovalCommands(PopNames(Logicals(rules))))]
  }

  lemma StartsPlain(rules: seq<Rule>)
    requires forall r :: r in rules ==> Clean(r)
    ensures RulesLines(rules) == [] || !IsCommand(RulesLines(rules)[0])
    decreases |rules|
  {
    if rules != [] {
      var front, last := rules[..|rules| - 1], rules[|rules| - 1];
      RuleStart(last);
      StartsPlain(front);
    }
  }

  /** The recipes read back from the text of a file, in order. */
  lemma RecipesRead(first: string, rules: seq<Rule>)
    requires OneWord(first) && forall r :: r in rules ==> Clean(r)
    ensures ReadRecipes(Unlines(FileLines(first, rules))) == AllRecipes(first, rules)
  {
    var removed := PopNames(Logicals(rules));
    FileLinesRead(first, rules);
    StartsPlain(rules);
    RecipesThree(Preamble(first), RulesLines(rules), [UNINSTALL + ":"], RemoveLines(removed), [""]);
    PreambleRecipes(first);
    RulesRecipes(rules);
    UninstallRecipe(removed);
  }

  lemma RecipesThree(a: seq<string>, b: seq<string>, c: seq<string>, d: seq<string>, e: seq<string>)
    requires b == [] || !IsCommand(b[0])
    requires c != [] && !IsCommand(c[0])
    ensures RecipesIn(a + b + c + d + e) == RecipesIn(a) + RecipesIn(b) + RecipesIn(c + (d + e))
  {
    FileLinesParts(a, b, c, d, e);
    RecipesAppend(b, c + (d + e));
    RecipesAppend(a, b + (c + (d + e)));
  }

  lemma FileLinesParts(a: seq<string>, b: seq<string>, c: seq<string>, d: seq<string>, e: seq<string>)
    ensures a + b + c + d + e == a + (b + (c + (d + e)))
  {
  }

  lemma {:induction false} ArchivesInOrder(alldeps: Dict, pkgNames: PkgNames)
    requires Archives(alldeps, pkgNames).Ok?
    ensures forall k :: k in Kept(Keys(alldeps)) ==> k in pkgNames
    ensures Debs(Archives(alldeps, pkgNames).value) == ArchiveFiles(Kept(Keys(alldeps)), pkgNames)
  {
    if alldeps == [] {
    } else {
      var front, last := alldeps[..|alldeps| - 1], alldeps[|alldeps| - 1].0;
      ArchivesInOrder(front, pkgNames);
      assert Keys(alldeps) == Keys(front) + [last];
      KeptAppend(Keys(front), [last]);
      assert [last][1..] == [];
      if last != "serve" {
        DebsAppend(Archives(front, pkgNames).value, pkgNames[last].archive);
      }
    }
  }

  lemma {:induction false} DebsAppend(archives: seq<string>, a: string)
    ensures Debs(archives + [a]) == Debs(archives) + [a + SUFFIX]
  {
  }

  /** The files of some packages, in order. */
  function ArchiveFiles(names: seq<Name>, pkgNames: PkgNames): (r: seq<string>)
    requires forall n :: n in names ==> n in pkgNames
    ensures |r| == |names| && forall i :: 0 <= i < |r| ==> r[i] == pkgNames[names[i]].archive + ".deb"
  {
    seq(|names|, i requires 0 <= i < |names| => pkgNames[names[i]].archive + ".deb")
  }

  /** The recipe of package `n`: it waits for the files of all its dependencies but `serve`,
      says which package it builds, builds it in its own directory, and installs the file. */
  ghost predicate Builds(recipe: Recipe, n: Name, alldeps: Dict, pkgNames: PkgNames) {
    && n in pkgNames && (forall k :: k in Kept(Keys(alldeps)) ==> k in pkgNames)
    && recipe.header == Header(pkgNames[n].archive + ".deb", ArchiveFiles(Kept(Keys(alldeps)), pkgNames))
    && recipe.commands == ["@echo Building package " + n,
                           "cd ./" + pkgNames[n].dir + ";" + " dpkg-buildpackage -b -k37FC6E55 -d -rfakeroot",
                           "sudo dpkg -i ${@}"]
  }

  lemma RuleBuilds(r: Rule, n: Name, records: Records, pkgNames: PkgNames)
    requires IsRuleOf(r, n, records, pkgNames)
    ensures n in records && Builds(RecipeOf(r), n, records[n].alldeps, pkgNames)
  {
    ArchivesInOrder(records[n].alldeps, pkgNames);
  }

  lemma DirectoryRead(dir: string)
    ensures var d := Directory("cd ./" + dir + ";" + " dpkg-buildpackage -b -k37FC6E55 -d -rfakeroot");
      d.Some? && (d.value == dir <==> ';' !in dir)
  {
    SeparatorRead(dir, " dpkg-buildpackage -b -k37FC6E55 -d -rfakeroot");
  }

  lemma SeparatorRead(dir: string, rest: string)
    ensures var d := Directory("cd ./" + dir + ";" + rest); d.Some? && (d.value == dir <==> ';' !in dir)
  {
    var command := "cd ./" + dir + ";" + rest;
    assert command[..5] == "cd ./" && command[5..] == dir + [';'] + rest;
    assert command[5 + |dir|] == ';';
    if ';' !in dir {
      FindPast(dir, ';', rest);
    } else {
      var i := Find(command[5..], ';');
      var j :| 0 <= j < |dir| && dir[j] == ';';
      assert command[5..][j] == ';';
      assert i <= j;
    }
  }

  /** The recipes of a file: the two fixed ones, one for each of `names` in order, and
      the removal of what they install. */
  ghost predicate FileRecipes(recipes: seq<Recipe>, first: string, names: seq<Name>, records: Records, pkgNames: PkgNames) {
    && |recipes| == |names| + 3
    && recipes[0] == Recipe(Header(".PHONY", ["all", "uninstall"]), [])
    && recipes[1] == Recipe(Header("all", [first + ".deb"]), [])
    && (forall i :: 0 <= i < |names| ==> names[i] in records && BuildsAt(recipes, i, names[i], records, pkgNames))
    && (forall n :: n in names ==> n in pkgNames)
    && recipes[|names| + 2]
         == Recipe(Header("uninstall", []), RemovalCommands(PopNames(LogicalNames(names, pkgNames))))
  }

  ghost predicate BuildsAt(recipes: seq<Recipe>, i: nat, n: Name, records: Records, pkgNames: PkgNames) {
    && i + 2 < |recipes| && n in records
    && Builds(recipes[i + 2], n, records[n].alldeps, pkgNames)
    && (Directory(recipes[i + 2].commands[1]) == Some(pkgNames[n].dir) <==> ';' !in pkgNames[n].dir)
  }

  lemma RecipeAt(first: string, rules: seq<Rule>, i: nat)
    requires i < |rules|
    ensures |AllRecipes(first, rules)| == |rules| + 3 && AllRecipes(first, rules)[i + 2] == RecipeOf(rules[i])
  {
    assert AllRecipes(first, rules)[i + 2] == RuleRecipes(rules)[i];
  }

  lemma RuleBuildsAt(first: string, rules: seq<Rule>, i: nat, n: Name, records: Records, pkgNames: PkgNames)
    requires i < |rules| && IsRuleOf(rules[i], n, records, pkgNames)
    ensures BuildsAt(AllRecipes(first, rules), i, n, records, pkgNames)
  {
    RecipeAt(first, rules, i);
    RuleBuilds(rules[i], n, records, pkgNames);
    DirectoryRead(pkgNames[n].dir);
  }

  lemma FixedRecipes(first: string, rules: seq<Rule>)
    ensures var recipes := AllRecipes(first, rules);
      && |recipes| == |rules| + 3
      && recipes[0] == Recipe(Header(".PHONY", ["all", "uninstall"]), [])
      && recipes[1] == Recipe(Header("all", [first + ".deb"]), [])
      && recipes[|rules| + 2] == Recipe(Header("uninstall", []), RemovalCommands(PopNames(Logicals(rules))))
  {
  }

  /** What the file of a finished crawl has `make` do: build the walk's packages, each in
      its own directory, which the command names whole unless it holds a `;`. */
  lemma RecipesOfCrawl(repo: Repo, root: Name, s: State, pkgNames: PkgNames)
    requires Finished(repo, root, s) && Named(repo, root, pkgNames)
    ensures root in pkgNames && FileFor(s.tree, s.maxDepth, s.records, pkgNames).Ok?
    ensures FileRecipes(ReadRecipes(Unlines(FileFor(s.tree, s.maxDepth, s.records, pkgNames).value)),
                        pkgNames[root].archive, WalkTree(s.tree, s.maxDepth).names, s.records, pkgNames)
  {
    var names := WalkTree(s.tree, s.maxDepth).names;
    TargetFirst(repo, root, s);
    var rules := FinishedRules(repo, root, s, pkgNames);
    var first := pkgNames[root].archive;
    RecipesRead(first, rules);
    FixedRecipes(first, rules);
    forall i | 0 <= i < |names|
      ensures names[i] in s.records && BuildsAt(AllRecipes(first, rules), i, names[i], s.records, pkgNames)
    {
      assert IsRuleOf(rules[i], names[i], s.records, pkgNames);
      RuleBuildsAt(first, rules, i, names[i], s.records, pkgNames);
    }
    LogicalsAre(rules, names, s.records, pkgNames);
  }
}
