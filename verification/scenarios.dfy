/** Concrete runs of the model: a small site crawl and two oracle scripts. */
module Scenarios {
  import opened Crawler
  import opened Actions
  import opened SpecLoop
  import Strings

  const Root: Url := "https://example.test/#/"
  const PageA: Url := "https://example.test/#/a"
  const PageB: Url := "https://example.test/#/b"
  const External: Url := "https://other.test/"

  /** The start page links to two same-site pages and one external page; page
      A links back to the start page; the external page would load. */
  const ThreePages: Site := map[
    Root := Links("root", [PageA, External, PageB]),
    PageA := Links("a", [Root]),
    PageB := Links("b", []),
    External := Links("ext", [])
  ]

  /** The crawl records the start page and its two same-site pages in
      depth-first order, once each, and never the external page. */
  lemma ThreePageCrawl()
    ensures Crawl(ThreePages, Root) == [Record(Root, "root"), Record(PageA, "a"), Record(PageB, "b")]
  {
    Strings.IncludesSelf(Root);
    Strings.IncludesExtension(Root, "a");
    Strings.IncludesExtension(Root, "b");
    assert Root + "a" == PageA;
    assert Root + "b" == PageB;
    assert !InScope(Root, External);
    assert PageA != PageB by { assert PageA[23] != PageB[23]; }
    assert PageAt(ThreePages, Root) == Links("root", [PageA, External, PageB]);
    assert PageAt(ThreePages, PageA) == Links("a", [Root]);
    assert PageAt(ThreePages, PageB) == Links("b", []);
    var s1 := CrawlState({Root}, [Record(Root, "root")]);
    var s2 := CrawlState({Root, PageA}, [Record(Root, "root"), Record(PageA, "a")]);
    var s3 := CrawlState({Root, PageA, PageB}, s2.records + [Record(PageB, "b")]);
    assert Visit(ThreePages, Root, PageA, s1) == s2 by {
      assert s1.records + [Record(PageA, "a")] == s2.records;
      assert s1.visited + {PageA} == s2.visited;
      assert PageA !in s1.visited && InScope(Root, PageA);
      assert [Root][1..] == [];
      assert VisitLinks(ThreePages, Root, [Root], s2) == VisitLinks(ThreePages, Root, [], s2) == s2;
      assert Visit(ThreePages, Root, PageA, s1) == VisitLinks(ThreePages, Root, [Root], s2);
    }
    assert Visit(ThreePages, Root, PageB, s2) == s3 by {
      assert s2.visited + {PageB} == s3.visited;
    }
    assert VisitLinks(ThreePages, Root, [PageB], s2) == s3 by {
      assert VisitLinks(ThreePages, Root, [PageB], s2) == VisitLinks(ThreePages, Root, [], s3);
    }
    assert VisitLinks(ThreePages, Root, [External, PageB], s2) == s3 by {
      assert [External, PageB][1..] == [PageB];
    }
    assert VisitLinks(ThreePages, Root, [PageA, External, PageB], s1) == s3 by {
      assert [PageA, External, PageB][1..] == [External, PageB];
    }
    assert Visit(ThreePages, Root, Root, CrawlState({}, []))
        == VisitLinks(ThreePages, Root, [PageA, External, PageB], s1) by {
      assert InScope(Root, Root);
      assert CrawlState({} + {Root}, [] + [Record(Root, "root")]) == s1;
    }
  }

  const PageC: Url := "https://example.test/#/a/c"

  /** The start page links to A then B, and A links to C. */
  const Nested: Site := map[
    Root := Links("root", [PageA, PageB]),
    PageA := Links("a", [PageC]),
    PageB := Links("b", []),
    PageC := Links("c", [])
  ]

  /** Depth-first, not breadth-first: C, reached through A, is recorded before
      B, A's later sibling. */
  lemma NestedCrawlIsDepthFirst()
    ensures Crawl(Nested, Root)
         == [Record(Root, "root"), Record(PageA, "a"), Record(PageC, "c"), Record(PageB, "b")]
  {
    Strings.IncludesSelf(Root);
    Strings.IncludesExtension(Root, "a");
    Strings.IncludesExtension(Root, "b");
    Strings.IncludesExtension(Root, "a/c");
    assert Root + "a" == PageA && Root + "b" == PageB && Root + "a/c" == PageC;
    assert PageA != PageB by { assert PageA[23] != PageB[23]; }
    assert PageAt(Nested, Root) == Links("root", [PageA, PageB]);
    assert PageAt(Nested, PageA) == Links("a", [PageC]);
    assert PageAt(Nested, PageB) == Links("b", []);
    assert PageAt(Nested, PageC) == Links("c", []);
    var r := Record(Root, "root");
    var a := Record(PageA, "a");
    var b := Record(PageB, "b");
    var c := Record(PageC, "c");
    var s1 := CrawlState({Root}, [r]);
    var sA := CrawlState({Root, PageA}, [r, a]);
    var sC := CrawlState({Root, PageA, PageC}, [r, a, c]);
    var sB := CrawlState({Root, PageA, PageC, PageB}, [r, a, c, b]);
    assert Visit(Nested, Root, PageC, sA) == sC by {
      assert sA.visited + {PageC} == sC.visited && sA.records + [c] == sC.records;
    }
    assert Visit(Nested, Root, PageA, s1) == sC by {
      assert s1.visited + {PageA} == sA.visited && s1.records + [a] == sA.records;
      assert [PageC][1..] == [];
      assert VisitLinks(Nested, Root, [PageC], sA) == VisitLinks(Nested, Root, [], sC) == sC;
      assert Visit(Nested, Root, PageA, s1) == VisitLinks(Nested, Root, [PageC], sA);
    }
    assert Visit(Nested, Root, PageB, sC) == sB by {
      assert sC.visited + {PageB} == sB.visited && sC.records + [b] == sB.records;
    }
    assert VisitLinks(Nested, Root, [PageA, PageB], s1) == sB by {
      assert [PageA, PageB][1..] == [PageB];
      assert [PageB][1..] == [];
      assert VisitLinks(Nested, Root, [PageB], sC) == VisitLinks(Nested, Root, [], sB);
    }
    assert Visit(Nested, Root, Root, CrawlState({}, []))
        == VisitLinks(Nested, Root, [PageA, PageB], s1) by {
      assert InScope(Root, Root);
      assert CrawlState({} + {Root}, [] + [r]) == s1;
    }
  }

  const TodoUrl := "https://todomvc.com/examples/react/dist/#/"
  const NewTodo := AriaSelector("textbox", map["name" := "New Todo Input"])

  /** Type an item, press Enter, judge the spec passed: three executed
      actions, a verdict of passed, and the page sees the start navigation and
      each browser action followed by its settle wait. */
  lemma CreateTodoPasses()
    ensures var script := [KeyboardInputString(NewTodo, "Buy milk"),
                           KeyboardInputSingleKey(NewTodo, "Enter"),
                           MarkSpecAsPassed("item created")];
      var r := ExecuteSpec(TodoUrl, script, {});
      && r.outcome == Verdict(MarkSpecAsPassed("item created"))
      && r.executed == 3
      && r.trace == [Goto(TodoUrl), Fill(NewTodo, "Buy milk"), Settle, Press(NewTodo, "Enter"), Settle]
  {
    var script := [KeyboardInputString(NewTodo, "Buy milk"),
                   KeyboardInputSingleKey(NewTodo, "Enter"),
                   MarkSpecAsPassed("item created")];
    ExecuteSpecEnds(TodoUrl, script, {}, 2);
    assert script[..3] == script;
    assert script[1..][1..] == [script[2]];
    assert Traces([script[2]], {}) == [];
    assert Traces(script[1..], {}) == [Press(NewTodo, "Enter"), Settle];
    assert Traces(script, {}) == [Fill(NewTodo, "Buy milk"), Settle, Press(NewTodo, "Enter"), Settle];
  }

  /** A click on an element the page does not have throws; the error is
      caught, the run goes on, and the next action's verdict ends it. */
  lemma MissingElementContinues()
    ensures var missing := AriaSelector("button", map["name" := "Nope"]);
      var script := [ClickOn(missing), MarkAsFailed("no such button")];
      var r := ExecuteSpec(TodoUrl, script, {Click(missing)});
      && r.outcome == Verdict(MarkAsFailed("no such button"))
      && r.executed == 2
      && r.stepCount == 0
      && r.trace == [Goto(TodoUrl), Click(missing)]
  {
  }
}
