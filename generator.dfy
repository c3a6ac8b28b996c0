/** The template generator (`create_boilerplate`): the copyright holder and line, the
    import list, the repository-link decision, the metadata header lines and the
    assembled text of the new file. The file write itself is the returned text. */
module Generator {
  import opened Wrappers
  import opened PyText
  import opened Selection
  import opened Prompt
  import opened ConfigStore

  // ---------------------------------------------------------------- copyright

  /** `company_name if company_name else author_name if author_name else ''`. */
  function CopyrightHolder(companyName: Value, authorName: Value): (holder: string)
    ensures holder == "" <==> !Truthy(companyName) && !Truthy(authorName)
    ensures Truthy(companyName) ==> holder == companyName.value
    ensures !Truthy(companyName) && holder != "" ==> holder == authorName.value
  {
    if Truthy(companyName) then companyName.value
    else if Truthy(authorName) then authorName.value
    else ""
  }

  const RightsReserved: string := ". All rights reserved."

  function CopyrightHead(year: nat): string {
    "Copyright (c) " + DecimalString(year)
  }

  /** The copyright sentence: always the year first and the reserved-rights phrase last;
      between them the holder, preceded by a space, exactly when there is a holder. */
  function CopyrightLine(year: nat, holder: string): (line: string)
    ensures |line| >= |CopyrightHead(year)| + |RightsReserved|
    ensures line[..|CopyrightHead(year)|] == CopyrightHead(year)
    ensures line[|line| - |RightsReserved|..] == RightsReserved
    ensures line[|CopyrightHead(year)|..|line| - |RightsReserved|] == if holder == "" then "" else " " + holder
  {
    if holder != "" then
      "Copyright (c) " + DecimalString(year) + " " + holder + ". All rights reserved."
    else
      "Copyright (c) " + DecimalString(year) + ". All rights reserved."
  }

  // ---------------------------------------------------------------- imports

  /** An entry of the optional-library catalog; `purpose` is only shown in the question. */
  datatype Library = Library(name: string, purpose: string)

  /** The catalog, in the order the questions are asked. */
  const Catalog: seq<Library> := [
    Library("numpy", "Numerical computations"),
    Library("pandas", "Data manipulation and analysis"),
    Library("matplotlib", "Data visualization"),
    Library("requests", "HTTP requests"),
    Library("scikit-learn", "Machine learning"),
    Library("flask", "Web development (Flask)"),
    Library("scipy", "Scientific computing"),
    Library("tkinter", "GUI development"),
    Library("sqlite3", "Database operations"),
    Library("beautifulsoup4", "Web scraping")
  ]

  /** The imports every generated file starts with. */
  const BaseImports: seq<string> := ["import sys", "import json", "import os", "from datetime import datetime"]

  /** The statement each catalog entry contributes, position by position. */
  const CatalogImports: seq<string> := [
    "import numpy",
    "import pandas",
    "import matplotlib.pyplot as plt",
    "import requests",
    "from sklearn import datasets, svm",
    "import flask",
    "import scipy",
    "import tkinter as tk",
    "import sqlite3",
    "from bs4 import BeautifulSoup"
  ]

  /** Which answers are a yes. */
  function YesMask(answers: seq<string>): (mask: seq<bool>)
    ensures |mask| == |answers|
  {
    seq(|answers|, i requires 0 <= i < |answers| => IsYes(answers[i]))
  }

  /** The import list after the first `|answers|` catalog questions. */
  function ImportList(answers: seq<string>): seq<string>
    requires |answers| <= |Catalog|
  {
    BaseImports + Select(CatalogImports[..|answers|], YesMask(answers))
  }

  /** The statement one catalog entry contributes: a fixed spelling for five of them,
      `import <name>` for the others. */
  function ImportStatement(lib: string): string {
    if lib == "matplotlib" then "import matplotlib.pyplot as plt"
    else if lib == "tkinter" then "import tkinter as tk"
    else if lib == "sqlite3" then "import sqlite3"
    else if lib == "beautifulsoup4" then "from bs4 import BeautifulSoup"
    else if lib == "scikit-learn" then "from sklearn import datasets, svm"
    else "import " + lib
  }

  /** The name-to-statement rule gives, for each catalog entry, the statement listed
      at the same position of CatalogImports. */
  lemma {:induction false} ImportStatementMatchesCatalog(i: nat)
    requires i < |Catalog|
    ensures ImportStatement(Catalog[i].name) == CatalogImports[i]
  {
    if i < 5 {
      CatalogFront(i);
    } else {
      CatalogBack(i);
    }
  }

  lemma {:induction false} CatalogFront(i: nat)
    requires i < 5
    ensures ImportStatement(Catalog[i].name) == CatalogImports[i]
  {
    if i == 0 { assert Catalog[0].name == "numpy"; }
    else if i == 1 { assert Catalog[1].name == "pandas"; }
    else if i == 2 { assert Catalog[2].name == "matplotlib"; }
    else if i == 3 { assert Catalog[3].name == "requests"; }
    else { assert Catalog[4].name == "scikit-learn"; }
  }

  lemma {:induction false} CatalogBack(i: nat)
    requires 5 <= i < |Catalog|
    ensures ImportStatement(Catalog[i].name) == CatalogImports[i]
  {
    if i == 5 { assert Catalog[5].name == "flask"; }
    else if i == 6 { assert Catalog[6].name == "scipy"; }
    else if i == 7 { assert Catalog[7].name == "tkinter"; }
    else if i == 8 { assert Catalog[8].name == "sqlite3"; }
    else { assert Catalog[9].name == "beautifulsoup4"; }
  }

  /** Ask about each catalog entry in order and append its statement on a yes.
      `used` counts the answers read; fewer than the catalog means the input ran out. */
  method ChooseImports(answers: seq<string>) returns (imports: seq<string>, used: nat)
    ensures used == if |answers| < |Catalog| then |answers| else |Catalog|
    ensures imports == ImportList(answers[..used])
  {
    imports := BaseImports;
    used := 0;
    while used < |Catalog| && used < |answers|
      invariant used <= |Catalog| && used <= |answers|
      invariant imports == ImportList(answers[..used])
    {
      ghost var before := imports;
      var lib := Catalog[used].name;
      var choice := answers[used];
      if IsYes(choice) {
        imports := imports + [ImportStatement(lib)];
      }
      ImportStep(answers, used, before, imports);
      used := used + 1;
    }
  }

  /** One more catalog question answered: its statement is appended exactly on a yes. */
  lemma {:induction false} ImportStep(answers: seq<string>, i: nat, before: seq<string>, after: seq<string>)
    requires i < |Catalog| && i < |answers|
    requires before == ImportList(answers[..i])
    requires after == before + if IsYes(answers[i]) then [ImportStatement(Catalog[i].name)] else []
    ensures after == ImportList(answers[..i + 1])
  {
    ImportStatementMatchesCatalog(i);
    SelectSnoc(CatalogImports[..i + 1], YesMask(answers[..i + 1]), i);
    assert CatalogImports[..i + 1][..i] == CatalogImports[..i];
    assert YesMask(answers[..i + 1])[..i] == YesMask(answers[..i]);
  }

  /** `line` is the statement of a catalog entry answered yes. */
  ghost predicate IsChosenImport(answers: seq<string>, line: string)
    requires |answers| == |Catalog|
  {
    exists i :: 0 <= i < |Catalog| && IsYes(answers[i]) && line == CatalogImports[i]
  }

  /** The full import list: the four base imports first, then one statement per catalog
      entry answered yes, in catalog order, and nothing else. */
  lemma {:induction false} ImportListShape(answers: seq<string>)
    requires |answers| == |Catalog|
    ensures ImportList(answers)[..|BaseImports|] == BaseImports
    ensures |ImportList(answers)| == |BaseImports| + CountTrue(YesMask(answers))
    ensures forall i :: 0 <= i < |Catalog| && IsYes(answers[i]) ==>
      && |BaseImports| + CountTrue(YesMask(answers)[..i]) < |ImportList(answers)|
      && ImportList(answers)[|BaseImports| + CountTrue(YesMask(answers)[..i])] == CatalogImports[i]
    ensures forall p :: |BaseImports| <= p < |ImportList(answers)| ==> IsChosenImport(answers, ImportList(answers)[p])
  {
    var mask := YesMask(answers);
    assert CatalogImports[..|answers|] == CatalogImports;
    assert ImportList(answers) == BaseImports + Select(CatalogImports, mask);
    PrefixSelectShape(BaseImports, CatalogImports, mask);
    forall p | |BaseImports| <= p < |ImportList(answers)|
      ensures IsChosenImport(answers, ImportList(answers)[p])
    {
      assert IsSelected(CatalogImports, mask, ImportList(answers)[p]);
      var i :| 0 <= i < |CatalogImports| && mask[i] && ImportList(answers)[p] == CatalogImports[i];
      assert IsYes(answers[i]);
    }
  }

  /** No library chosen: exactly the four base imports. */
  lemma {:induction false} ImportListNoneChosen(answers: seq<string>)
    requires |answers| == |Catalog|
    requires forall i :: 0 <= i < |answers| ==> !IsYes(answers[i])
    ensures ImportList(answers) == BaseImports
  {
    SelectNone(CatalogImports[..|answers|], YesMask(answers));
  }

  /** Every library chosen: the base imports followed by the whole catalog's statements. */
  lemma {:induction false} ImportListAllChosen(answers: seq<string>)
    requires |answers| == |Catalog|
    requires forall i :: 0 <= i < |answers| ==> IsYes(answers[i])
    ensures ImportList(answers) == BaseImports + CatalogImports
  {
    assert CatalogImports[..|answers|] == CatalogImports;
    SelectAll(CatalogImports, YesMask(answers));
  }

  // ---------------------------------------------------------------- metadata header

  /** The metadata header prefixes, in output order: company name, company URL,
      author, author URI, GitHub URL. */
  const HeaderLabels: seq<string> := [CompanyNameLabel, CompanyUrlLabel, AuthorLabel, AuthorUriLabel, GithubUrlLabel]

  const CompanyNameLabel: string := "# Company Name: "
  const CompanyUrlLabel: string := "# Company URL: "
  const AuthorLabel: string := "# Author: "
  const AuthorUriLabel: string := "# Author URI: "
  const GithubUrlLabel: string := "# GitHub URL: "

  function HeaderCandidates(values: seq<Value>): (lines: seq<string>)
    requires |values| == |HeaderLabels|
    ensures |lines| == |HeaderLabels|
  {
    seq(|HeaderLabels|, i requires 0 <= i < |HeaderLabels| => HeaderLabels[i] + values[i].GetOr(""))
  }

  function TruthyMask(values: seq<Value>): (mask: seq<bool>)
    ensures |mask| == |values|
  {
    seq(|values|, i requires 0 <= i < |values| => Truthy(values[i]))
  }

  /** The metadata lines for the five values: one per truthy value, in label order. */
  function HeaderLines(values: seq<Value>): seq<string>
    requires |values| == |HeaderLabels|
  {
    Select(HeaderCandidates(values), TruthyMask(values))
  }

  /** The header list built by five independent tests, one per field. */
  method MetadataHeaders(companyName: Value, companyUrl: Value, authorName: Value, authorUrl: Value, githubUrl: Value)
    returns (headers: seq<string>)
    ensures headers == HeaderLines([companyName, companyUrl, authorName, authorUrl, githubUrl])
  {
    headers := [];
    headers := AddHeader(headers, CompanyNameLabel, companyName);
    headers := AddHeader(headers, CompanyUrlLabel, companyUrl);
    headers := AddHeader(headers, AuthorLabel, authorName);
    headers := AddHeader(headers, AuthorUriLabel, authorUrl);
    headers := AddHeader(headers, GithubUrlLabel, githubUrl);
    HeaderLinesByField([companyName, companyUrl, authorName, authorUrl, githubUrl]);
  }

  /** The line one field contributes: its labelled value when the value is truthy. */
  function FieldLine(prefix: string, value: Value): seq<string> {
    if Truthy(value) then [prefix + value.value] else []
  }

  /** `if value: headers.append(f"{prefix}{value}")`. */
  method AddHeader(headers: seq<string>, prefix: string, value: Value) returns (r: seq<string>)
    ensures r == headers + FieldLine(prefix, value)
  {
    r := headers;
    if Truthy(value) {
      r := r + [prefix + value.value];
    }
  }

  /** The metadata lines are the five fields' lines one after the other, in the order
      company name, company URL, author, author URI, GitHub URL. */
  lemma {:induction false} HeaderLinesByField(values: seq<Value>)
    requires |values| == |HeaderLabels|
    ensures HeaderLines(values)
         == [] + FieldLine(CompanyNameLabel, values[0]) + FieldLine(CompanyUrlLabel, values[1])
            + FieldLine(AuthorLabel, values[2]) + FieldLine(AuthorUriLabel, values[3])
            + FieldLine(GithubUrlLabel, values[4])
  {
    var items := HeaderCandidates(values);
    var keep := TruthyMask(values);
    SelectFive(items, keep);
    HeaderLinesComplete(values);
    forall i | 0 <= i < 5
      ensures (if keep[i] then [items[i]] else []) == FieldLine(HeaderLabels[i], values[i])
    {
    }
  }

  /** Selecting from five items is the five optional items in order. */
  lemma {:induction false} SelectFive<T>(items: seq<T>, keep: seq<bool>)
    requires |items| == |keep| == 5
    ensures Select(items[..5], keep[..5])
         == [] + (if keep[0] then [items[0]] else []) + (if keep[1] then [items[1]] else [])
            + (if keep[2] then [items[2]] else []) + (if keep[3] then [items[3]] else [])
            + (if keep[4] then [items[4]] else [])
  {
    var o0 := if keep[0] then [items[0]] else [];
    var o1 := if keep[1] then [items[1]] else [];
    var o2 := if keep[2] then [items[2]] else [];
    var o3 := if keep[3] then [items[3]] else [];
    var o4 := if keep[4] then [items[4]] else [];
    assert Select(items[..1], keep[..1]) == [] + o0 by {
      assert Select(items[..0], keep[..0]) == [];
      SelectSnoc(items, keep, 0);
    }
    assert Select(items[..2], keep[..2]) == [] + o0 + o1 by { SelectSnoc(items, keep, 1); }
    assert Select(items[..3], keep[..3]) == [] + o0 + o1 + o2 by { SelectSnoc(items, keep, 2); }
    assert Select(items[..4], keep[..4]) == [] + o0 + o1 + o2 + o3 by { SelectSnoc(items, keep, 3); }
    SelectSnoc(items, keep, 4);
  }


  /** After the last field the selection so far is the whole of HeaderLines. */
  lemma {:induction false} HeaderLinesComplete(values: seq<Value>)
    requires |values| == |HeaderLabels|
    ensures Select(HeaderCandidates(values)[..|values|], TruthyMask(values)[..|values|]) == HeaderLines(values)
  {
    assert HeaderCandidates(values)[..|values|] == HeaderCandidates(values);
    assert TruthyMask(values)[..|values|] == TruthyMask(values);
  }

  /** `line` is the labelled form of one of the truthy values. */
  ghost predicate IsLabelledValue(values: seq<Value>, line: string)
    requires |values| == |HeaderLabels|
  {
    exists i :: 0 <= i < |values| && Truthy(values[i]) && line == HeaderLabels[i] + values[i].value
  }

  /** The metadata lines are exactly the labelled truthy values, in label order: there
      are as many lines as truthy values, the i-th label's line sits after the lines of
      the truthy values before it, and every line is such a labelled value. */
  lemma {:induction false} HeaderLinesShape(values: seq<Value>)
    requires |values| == |HeaderLabels|
    ensures |HeaderLines(values)| == CountTrue(TruthyMask(values))
    ensures forall i :: 0 <= i < |values| && Truthy(values[i]) ==>
      && CountTrue(TruthyMask(values)[..i]) < |HeaderLines(values)|
      && HeaderLines(values)[CountTrue(TruthyMask(values)[..i])] == HeaderLabels[i] + values[i].value
    ensures forall p :: 0 <= p < |HeaderLines(values)| ==> IsLabelledValue(values, HeaderLines(values)[p])
  {
    var items := HeaderCandidates(values);
    var keep := TruthyMask(values);
    var lines := HeaderLines(values);
    PrefixSelectShape([], items, keep);
    assert [] + lines == lines;
    forall p | 0 <= p < |lines|
      ensures IsLabelledValue(values, lines[p])
    {
      assert IsSelected(items, keep, ([] + lines)[p]);
      var i :| 0 <= i < |items| && keep[i] && HeaderLines(values)[p] == items[i];
      assert Truthy(values[i]);
    }
  }

  /** No value set: no metadata lines at all. */
  lemma {:induction false} HeaderLinesNone(values: seq<Value>)
    requires |values| == |HeaderLabels|
    requires forall i :: 0 <= i < |values| ==> !Truthy(values[i])
    ensures HeaderLines(values) == []
  {
    SelectNone(HeaderCandidates(values), TruthyMask(values));
  }

  // ---------------------------------------------------------------- repository link

  /** The answers to the repository-link questions: the URL for the header ("" when
      not linked) and whether it is to be written into the configuration. */
  datatype Link = Link(url: string, persist: bool)

  /** The link questions, given the configured `github_url`. `None` when the input
      runs out before they are answered. */
  function LinkDecision(configured: Value, responses: seq<string>): (r: Option<Link>)
    ensures responses == [] ==> r == None
    ensures responses != [] && !IsYes(responses[0]) ==> r == Some(Link("", false))
    ensures responses != [] && IsYes(responses[0]) && Truthy(configured) ==> r == Some(Link(configured.value, false))
    ensures responses != [] && IsYes(responses[0]) && !Truthy(configured) ==> r == NewLink(responses[1..])
    ensures r.Some? && r.value.persist ==> IsYes(responses[0]) && !Truthy(configured)
  {
    if responses == [] then None
    else if !IsYes(responses[0]) then Some(Link("", false))
    else if Truthy(configured) then Some(Link(configured.value, false))
    else NewLink(responses[1..])
  }

  /** No URL configured: a required URL, then whether to save it. */
  function NewLink(responses: seq<string>): Option<Link>
  {
    match RequiredAnswer(responses)
    case None => None
    case Some(u) =>
      if u + 1 < |responses| then Some(Link(Strip(responses[u]), IsYes(responses[u + 1])))
      else None
  }

  /** The entered URL is the stripped first non-blank answer, so it is never empty. */
  lemma {:induction false} NewLinkUrl(responses: seq<string>)
    ensures NewLink(responses).Some? ==>
      && NewLink(responses).value.url != ""
      && NewLink(responses).value.url == Strip(responses[RequiredAnswer(responses).value])
  {
    RequiredAnswerFirst(responses);
  }

  /** The URL question is answered, and then the save question is asked of the very next
      answer; the URL is saved exactly when that answer is a yes (`y` or `Y`, by
      `IsYesExactly`). */
  lemma {:induction false} NewLinkSave(responses: seq<string>)
    ensures NewLink(responses).Some? <==>
      RequiredAnswer(responses).Some? && RequiredAnswer(responses).value + 1 < |responses|
    ensures NewLink(responses).Some? ==>
      NewLink(responses).value.persist == IsYes(responses[RequiredAnswer(responses).value + 1])
  {
  }

  /** A yes to the link question with no URL configured, any number of blank attempts
      at the URL, the URL, then the save answer: the stripped URL is linked, and saved
      exactly when the save answer is a yes; declining still links it. */
  lemma {:induction false} LinkEntered(configured: Value, yes: string, blanks: seq<string>, url: string, save: string)
    requires IsYes(yes) && !Truthy(configured)
    requires forall i :: 0 <= i < |blanks| ==> AllSpace(blanks[i])
    requires !AllSpace(url)
    ensures LinkDecision(configured, [yes] + blanks + [url, save]) == Some(Link(Strip(url), IsYes(save)))
  {
    var responses := [yes] + blanks + [url, save];
    var rest := blanks + [url, save];
    assert responses[1..] == rest;
    assert rest[|blanks|] == url && rest[|blanks| + 1] == save;
    assert forall j :: 0 <= j < |blanks| ==> rest[j] == blanks[j];
    RequiredAnswerIs(rest, |blanks|);
  }

  /** On a yes to the link question the URL in the header is never empty. */
  lemma {:induction false} LinkUrlNonEmpty(configured: Value, responses: seq<string>)
    requires LinkDecision(configured, responses).Some? && IsYes(responses[0])
    ensures LinkDecision(configured, responses).value.url != ""
  {
    if !Truthy(configured) {
      NewLinkUrl(responses[1..]);
    }
  }

  /** The link questions as the program asks them: link at all? then the configured
      URL, or a required URL and whether to save it. */
  method AskLink(configured: Value, responses: seq<string>) returns (link: Option<Link>)
    ensures link == LinkDecision(configured, responses)
  {
    if responses == [] {
      return None;
    }
    if IsYes(responses[0]) {
      if Truthy(configured) {
        link := Some(Link(configured.value, false));
      } else {
        link := AskNewLink(responses[1..]);
      }
    } else {
      link := Some(Link("", false));
    }
  }

  /** The URL question and the save question. */
  method AskNewLink(responses: seq<string>) returns (link: Option<Link>)
    ensures link == NewLink(responses)
  {
    var url, n := GetUserInput(responses, false);
    if url.None? {
      return None;
    }
    var u := n - 1;  // the index of the accepted URL
    if u + 1 == |responses| {
      return None;
    }
    var saveChoice := responses[u + 1];
    link := Some(Link(url.value, IsYes(saveChoice)));
  }

  // ---------------------------------------------------------------- the generated text

  const CodingLine: string := "# -*- coding: utf-8 -*-"
  const ScriptNameLabel: string := "# Script Name: "
  const DescriptionLabel: string := "# Description: "
  const VersionLine: string := "# Version: 1.0"
  const CopyrightLabel: string := "# Copyright: "

  /** The title block: coding line, blank line, script name, description, version. */
  function Preamble(filename: string, description: string): string {
    CodingLine + "\n" + "\n"
    + ScriptNameLabel + filename + ".py" + "\n"
    + DescriptionLabel + description + "\n"
    + VersionLine + "\n"
  }

  /** The fixed function skeleton, line by line. */
  const SkeletonLines: seq<string> := [
    "",
    "def clear_screen():",
    "    \"\"\"Clears the terminal screen.\"\"\"",
    // one line, written as two literals: a single literal this long makes the
    // newline-free proof below too costly
    "    os.system('cls' if " + "os.name == 'nt' else 'clear')",
    "",
    "def main():",
    "    clear_screen()",
    "    # Your code here",
    "",
    "if __name__ == \"__main__\":",
    "    main()",
    ""
  ]

  /** The fixed skeleton that ends every generated file. */
  function Skeleton(): string {
    Join(SkeletonLines, "\n")
  }

  /** How the generated text is put together: the preamble, the metadata lines, the
      copyright line and a blank line, the imports and a blank line, the skeleton. */
  function Layout(preamble: string, headers: seq<string>, copyright: string, imports: seq<string>,
                  skeleton: string): string
  {
    preamble
    + Join(headers, "\n") + "\n"
    + copyright + "\n" + "\n"
    + Join(imports, "\n") + "\n" + "\n"
    + skeleton
  }

  /** The same layout line by line. With no metadata line the header still gets one
      empty line where they would be. */
  function LayoutLines(title: seq<string>, headers: seq<string>, copyright: string, imports: seq<string>,
                       skeleton: seq<string>): seq<string>
  {
    title
    + (if headers == [] then [""] else headers)
    + [copyright, ""]
    + imports
    + [""] + skeleton
  }

  /** The generated text. */
  function BoilerplateText(filename: string, description: string, headers: seq<string>,
                           copyrightLine: string, imports: seq<string>): string
  {
    Layout(Preamble(filename, description), headers, CopyrightLabel + copyrightLine, imports, Skeleton())
  }

  function TitleLines(filename: string, description: string): seq<string> {
    [CodingLine, "", ScriptNameLabel + filename + ".py", DescriptionLabel + description, VersionLine]
  }

  /** The lines of the generated text, in order. */
  function ExpectedLines(filename: string, description: string, headers: seq<string>,
                         copyrightLine: string, imports: seq<string>): seq<string>
  {
    LayoutLines(TitleLines(filename, description), headers, CopyrightLabel + copyrightLine, imports, SkeletonLines)
  }

  predicate NoNewline(s: string) {
    '\n' !in s
  }

  lemma {:induction false} PreambleLines(filename: string, description: string)
    ensures Join(TitleLines(filename, description), "\n") + "\n" == Preamble(filename, description)
  {
    JoinFive(CodingLine, "", ScriptNameLabel + filename + ".py", DescriptionLabel + description, VersionLine, "\n");
  }

  lemma {:induction false} JoinFive(a: string, b: string, c: string, d: string, e: string, sep: string)
    ensures Join([a, b, c, d, e], sep) == a + sep + b + sep + c + sep + d + sep + e
  {
    JoinCons(d, [e], sep);
    assert [d] + [e] == [d, e];
    JoinCons(c, [d, e], sep);
    assert [c] + [d, e] == [c, d, e];
    JoinCons(b, [c, d, e], sep);
    assert [b] + [c, d, e] == [b, c, d, e];
    JoinCons(a, [b, c, d, e], sep);
    assert [a] + [b, c, d, e] == [a, b, c, d, e];
  }

  lemma {:induction false} TitleNoNewline(filename: string, description: string)
    requires NoNewline(filename) && NoNewline(description)
    ensures forall i :: 0 <= i < |TitleLines(filename, description)| ==> NoNewline(TitleLines(filename, description)[i])
  {
  }

  lemma {:induction false} SkeletonNoNewline()
    ensures forall i :: 0 <= i < |SkeletonLines| ==> NoNewline(SkeletonLines[i])
  {
    SkeletonHeadNoNewline();
    SkeletonMiddleNoNewline();
    SkeletonTailNoNewline();
  }

  lemma {:induction false} SkeletonHeadNoNewline()
    ensures forall i :: 0 <= i < 4 ==> NoNewline(SkeletonLines[i])
  {
  }

  lemma {:induction false} SkeletonMiddleNoNewline()
    ensures forall i :: 4 <= i < 8 ==> NoNewline(SkeletonLines[i])
  {
  }

  lemma {:induction false} SkeletonTailNoNewline()
    ensures forall i :: 8 <= i < 12 ==> NoNewline(SkeletonLines[i])
  {
  }

  /** Joining the expected lines with newlines: each group joined on its own, the groups
      separated by one newline, and an empty line for each blank line between them. */
  lemma {:induction false} JoinLayout(title: seq<string>, headers: seq<string>, c: string, imports: seq<string>, skeleton: seq<string>)
    requires title != [] && imports != [] && skeleton != []
    ensures Join(LayoutLines(title, headers, c, imports, skeleton), "\n")
         == Layout(Join(title, "\n") + "\n", headers, c, imports, Join(skeleton, "\n"))
  {
    var hs := if headers == [] then [""] else headers;
    var x1 := title + hs;
    assert Join(x1, "\n") == Join(title, "\n") + "\n" + Join(headers, "\n") by {
      JoinAppend(title, hs, "\n");
    }
    var x2 := x1 + [c, ""];
    assert Join(x2, "\n") == Join(x1, "\n") + "\n" + c + "\n" by {
      JoinAppend(x1, [c, ""], "\n");
      JoinCons(c, [""], "\n");
    }
    var x3 := x2 + imports;
    assert Join(x3, "\n") == Join(x2, "\n") + "\n" + Join(imports, "\n") by {
      JoinAppend(x2, imports, "\n");
    }
    var x4 := x3 + [""];
    assert Join(x4, "\n") == Join(x3, "\n") + "\n" by {
      JoinAppend(x3, [""], "\n");
    }
    JoinAppend(x4, skeleton, "\n");
  }

  /** The generated text is its expected lines joined with newlines. */
  lemma {:induction false} TextIsJoin(filename: string, description: string, headers: seq<string>,
                   copyrightLine: string, imports: seq<string>)
    requires imports != []
    ensures BoilerplateText(filename, description, headers, copyrightLine, imports)
         == Join(ExpectedLines(filename, description, headers, copyrightLine, imports), "\n")
  {
    PreambleLines(filename, description);
    JoinLayout(TitleLines(filename, description), headers, CopyrightLabel + copyrightLine, imports, SkeletonLines);
  }

  /** Read line by line, the generated text is: the coding line, a blank line, the
      title, the description, the version, the metadata lines, the copyright line, a
      blank line, the imports, two blank lines, then the rest of the skeleton. */
  lemma {:induction false} TextLines(filename: string, description: string, headers: seq<string>,
                  copyrightLine: string, imports: seq<string>)
    requires NoNewline(filename) && NoNewline(description) && NoNewline(copyrightLine)
    requires forall i :: 0 <= i < |headers| ==> NoNewline(headers[i])
    requires imports != [] && forall i :: 0 <= i < |imports| ==> NoNewline(imports[i])
    ensures Split(BoilerplateText(filename, description, headers, copyrightLine, imports), '\n')
         == ExpectedLines(filename, description, headers, copyrightLine, imports)
  {
    var lines := ExpectedLines(filename, description, headers, copyrightLine, imports);
    TextIsJoin(filename, description, headers, copyrightLine, imports);
    TitleNoNewline(filename, description);
    SkeletonNoNewline();
    assert NoNewline(CopyrightLabel + copyrightLine);
    LayoutNoNewline(TitleLines(filename, description), headers, CopyrightLabel + copyrightLine, imports, SkeletonLines);
    SplitJoin(lines, '\n');
  }

  /** Lines free of newlines stay free of them when laid out. */
  lemma {:induction false} LayoutNoNewline(title: seq<string>, headers: seq<string>, copyright: string,
                                           imports: seq<string>, skeleton: seq<string>)
    requires forall i :: 0 <= i < |title| ==> NoNewline(title[i])
    requires forall i :: 0 <= i < |headers| ==> NoNewline(headers[i])
    requires NoNewline(copyright)
    requires forall i :: 0 <= i < |imports| ==> NoNewline(imports[i])
    requires forall i :: 0 <= i < |skeleton| ==> NoNewline(skeleton[i])
    ensures forall i :: 0 <= i < |LayoutLines(title, headers, copyright, imports, skeleton)| ==>
      NoNewline(LayoutLines(title, headers, copyright, imports, skeleton)[i])
  {
  }

  // ---------------------------------------------------------------- the whole generation

  /** What the questions of one session settled: the description, the import list
      and the repository link. */
  datatype Answers = Answers(description: string, imports: seq<string>, link: Link)

  /** What a completed generation produced. */
  datatype Generated = Generated(description: string, imports: seq<string>, githubUrl: string,
                                 persisted: bool, text: string)

  /** The five metadata values for a configuration and the URL chosen for the header. */
  function MetadataValues(entries: Entries, githubUrl: string): (values: seq<Value>)
    ensures |values| == |HeaderLabels|
  {
    [Lookup(entries, CompanyName, Some("")), Lookup(entries, CompanyUrl, Some("")),
     Lookup(entries, AuthorName, Some("")), Lookup(entries, AuthorUrl, Some("")), Some(githubUrl)]
  }

  /** The questions of `create_boilerplate` for the answers `responses`: the
      description, the catalog questions, then the link questions. `None` when the
      input runs out first. */
  function Questions(configured: Value, responses: seq<string>): Option<Answers>
  {
    match RequiredAnswer(responses)
    case None => None
    case Some(d) => AfterDescription(configured, Strip(responses[d]), responses[d + 1..])
  }

  /** The questions after the description: the catalog, then the repository link. */
  function AfterDescription(configured: Value, description: string, rest: seq<string>): Option<Answers>
  {
    if |rest| <= |Catalog| then None
    else
      match LinkDecision(configured, rest[|Catalog|..])
      case None => None
      case Some(link) => Some(Answers(description, ImportList(rest[..|Catalog|]), link))
  }

  /** A completed session: the description is a non-empty stripped answer, a URL is
      saved only when none was configured and is never empty, and at least the
      description, every catalog question and the link question were answered. */
  lemma {:induction false} QuestionsAnswersShape(configured: Value, responses: seq<string>)
    requires Questions(configured, responses).Some?
    ensures Questions(configured, responses).value.description != ""
    ensures Strip(Questions(configured, responses).value.description) == Questions(configured, responses).value.description
    ensures Questions(configured, responses).value.link.persist ==>
      Questions(configured, responses).value.link.url != "" && !Truthy(configured)
    ensures |responses| >= |Catalog| + 2
  {
    var d := RequiredAnswer(responses).value;
    var description := Strip(responses[d]);
    var rest := responses[d + 1..];
    assert Questions(configured, responses) == AfterDescription(configured, description, rest);
    AfterDescriptionShape(configured, description, rest);
    RequiredAnswerFirst(responses);
    StripIdempotent(responses[d]);
  }

  lemma {:induction false} AfterDescriptionShape(configured: Value, description: string, rest: seq<string>)
    ensures AfterDescription(configured, description, rest).Some? ==>
      && AfterDescription(configured, description, rest).value.description == description
      && (AfterDescription(configured, description, rest).value.link.persist ==>
            AfterDescription(configured, description, rest).value.link.url != "" && !Truthy(configured))
      && |rest| >= |Catalog| + 1
  {
    if |rest| > |Catalog| {
      var link := LinkDecision(configured, rest[|Catalog|..]);
      if link.Some? && link.value.persist {
        LinkUrlNonEmpty(configured, rest[|Catalog|..]);
      }
    }
  }

  /** The record of a generation once every question is answered. */
  function Finish(filename: string, year: nat, entries: Entries, answers: Answers): Generated
  {
    var holder := CopyrightHolder(Lookup(entries, CompanyName, Some("")), Lookup(entries, AuthorName, Some("")));
    var headers := HeaderLines(MetadataValues(entries, answers.link.url));
    var text := BoilerplateText(filename, answers.description, headers, CopyrightLine(year, holder), answers.imports);
    Generated(answers.description, answers.imports, answers.link.url, answers.link.persist, text)
  }
  /** The header values are read from the configuration: the first four are the fields
      in FieldOrder's order, an absent field reading as the empty string
      (`config.get(key, '')`), and the fifth is the link URL. */
  lemma {:induction false} MetadataFromConfig(entries: Entries, url: string)
    ensures var values := MetadataValues(entries, url);
      && (forall i :: 0 <= i < 4 ==>
            && (Truthy(values[i]) <==> FieldOrder[i] in entries && Truthy(entries[FieldOrder[i]]))
            && (FieldOrder[i] in entries ==> values[i] == entries[FieldOrder[i]])
            && (FieldOrder[i] !in entries ==> values[i] == Some("")))
      && values[4] == Some(url)
  {
  }

  /** The copyright line of the generated text names the configured company if it is
      set, else the configured author if set, else nobody. */
  lemma {:induction false} FinishCopyright(filename: string, year: nat, entries: Entries, answers: Answers)
    ensures Finish(filename, year, entries, answers).text
         == BoilerplateText(filename, answers.description, HeaderLines(MetadataValues(entries, answers.link.url)),
                            CopyrightLine(year,
                              if CompanyName in entries && Truthy(entries[CompanyName]) then entries[CompanyName].value
                              else if AuthorName in entries && Truthy(entries[AuthorName]) then entries[AuthorName].value
                              else ""),
                            answers.imports)
  {
    var company := Lookup(entries, CompanyName, Some(""));
    var author := Lookup(entries, AuthorName, Some(""));
    assert Truthy(company) <==> CompanyName in entries && Truthy(entries[CompanyName]);
    assert Truthy(author) <==> AuthorName in entries && Truthy(entries[AuthorName]);
  }

  /** An entered URL is the last metadata line of the header. */
  lemma {:induction false} HeaderEndsWithUrl(entries: Entries, url: string)
    requires url != ""
    ensures var headers := HeaderLines(MetadataValues(entries, url));
      headers != [] && headers[|headers| - 1] == GithubUrlLabel + url
  {
    var values := MetadataValues(entries, url);
    HeaderLinesByField(values);
    assert FieldLine(GithubUrlLabel, values[4]) == [GithubUrlLabel + url];
  }

  /** The answer to the save question decides only whether the URL goes into the
      configuration: declined or accepted, the generated text and its URL are the same. */
  lemma {:induction false} SaveAnswerOnlyPersists(filename: string, year: nat, entries: Entries,
                                                  description: string, imports: seq<string>, url: string)
    ensures var saved := Finish(filename, year, entries, Answers(description, imports, Link(url, true)));
      var declined := Finish(filename, year, entries, Answers(description, imports, Link(url, false)));
      && saved.persisted && !declined.persisted
      && saved.githubUrl == url && declined.githubUrl == url
      && saved.text == declined.text
  {
  }


  /** The outcome of `create_boilerplate(filename, config)` for the answers `responses`. */
  function Generate(filename: string, year: nat, entries: Entries, responses: seq<string>): Option<Generated>
  {
    match Questions(Lookup(entries, GithubUrl, None), responses)
    case None => None
    case Some(answers) => Some(Finish(filename, year, entries, answers))
  }

  /** The text assembled piece by piece, as the generator appends to it. */
  method AssembleText(filename: string, description: string, headers: seq<string>,
                      copyrightLine: string, imports: seq<string>) returns (text: string)
    ensures text == BoilerplateText(filename, description, headers, copyrightLine, imports)
  {
    text := Preamble(filename, description);
    text := text + Join(headers, "\n") + "\n";
    text := text + CopyrightLabel + copyrightLine + "\n" + "\n";
    text := text + Join(imports, "\n") + "\n" + "\n";
    text := text + Skeleton();
  }

  /** The catalog questions, then the link questions. */
  method AskRemaining(configured: Value, description: string, rest: seq<string>)
    returns (answers: Option<Answers>)
    ensures answers == AfterDescription(configured, description, rest)
  {
    var imports, answered := ChooseImports(rest);
    if answered == |rest| {
      return None;
    }
    assert rest[..answered] == rest[..|Catalog|];
    var link := AskLink(configured, rest[answered..]);
    if link.None? {
      return None;
    }
    answers := Some(Answers(description, imports, link.value));
  }

  /** All the questions, in order. */
  method AskQuestions(configured: Value, responses: seq<string>) returns (answers: Option<Answers>)
    ensures answers == Questions(configured, responses)
  {
    var description, used := GetUserInput(responses, false);
    if description.None? {
      return None;
    }
    QuestionsAnswered(configured, responses, used);
    answers := AskRemaining(configured, description.value, responses[used..]);
  }

  /** Once the description is the answer at `used - 1`, the rest of the session is
      asked of the answers after it. */
  lemma {:induction false} QuestionsAnswered(configured: Value, responses: seq<string>, used: nat)
    requires 0 < used && RequiredAnswer(responses) == Some(used - 1)
    ensures Questions(configured, responses)
         == AfterDescription(configured, Strip(responses[used - 1]), responses[used..])
  {
    var d := used - 1;
    assert d + 1 == used;
    var rest := responses[d + 1..];
    assert Questions(configured, responses) == AfterDescription(configured, Strip(responses[d]), rest);
  }

  /** The part of `create_boilerplate` after the questions: the copyright line and the
      metadata lines from the values read from the configuration, then the text. */
  method Compose(filename: string, year: nat, entries: Entries, answers: Answers) returns (generated: Generated)
    ensures generated == Finish(filename, year, entries, answers)
  {
    var companyName := Lookup(entries, CompanyName, Some(""));
    var companyUrl := Lookup(entries, CompanyUrl, Some(""));
    var authorName := Lookup(entries, AuthorName, Some(""));
    var authorUrl := Lookup(entries, AuthorUrl, Some(""));
    var copyrightLine := CopyrightLine(year, CopyrightHolder(companyName, authorName));
    var headers := MetadataHeaders(companyName, companyUrl, authorName, authorUrl, Some(answers.link.url));
    var text := AssembleText(filename, answers.description, headers, copyrightLine, answers.imports);
    generated := Generated(answers.description, answers.imports, answers.link.url, answers.link.persist, text);
  }

  /** `config['github_url'] = github_url` when the user asked for the entered URL to be saved. */
  method RememberGithubUrl(config: Config, result: Option<Generated>)
    modifies config
    ensures config.entries ==
      if result.Some? && result.value.persisted
      then old(config.entries)[GithubUrl := Some(result.value.githubUrl)]
      else old(config.entries)
  {
    if result.Some? && result.value.persisted {
      config.entries := config.entries[GithubUrl := Some(result.value.githubUrl)];
    }
  }

  /** `create_boilerplate`: the description, the catalog questions and the link
      questions, in that order; the configuration gains the entered `github_url`
      exactly when the user asked for it to be saved. */
  method CreateBoilerplate(filename: string, config: Config, year: nat, responses: seq<string>)
    returns (result: Option<Generated>)
    modifies config
    ensures result == Generate(filename, year, old(config.entries), responses)
    ensures config.entries ==
      if result.Some? && result.value.persisted
      then old(config.entries)[GithubUrl := Some(result.value.githubUrl)]
      else old(config.entries)
  {
    var entries := config.entries;
    var answers := AskQuestions(Lookup(entries, GithubUrl, None), responses);
    if answers.None? {
      return None;
    }
    var generated := Compose(filename, year, entries, answers.value);
    result := Some(generated);
    RememberGithubUrl(config, result);
  }
}
