/**
 * What the planner of crawl.py guarantees, proved about `Crawl.Walk`: which requests are made
 * and in which order, the shape of the effect trace (every request followed by exactly one
 * outcome, and by a pause exactly when the delay is positive), how the section title is
 * threaded across siblings, and how deep the created directories go.
 */
module CrawlFacts {
  import opened Wrappers
  import opened Strings
  import opened Markup
  import opened Crawl

  // ---------------------------------------------------------------------------------------
  // Reference definitions, independent of the trace

  /** The hrefs that the sibling list `cs` leads to requests for, in document order. */
  function Hrefs(cs: seq<Element>): seq<string>
    decreases cs
  {
    if cs == [] then [] else Hrefs(cs[..|cs| - 1]) + ChildHrefs(cs[|cs| - 1])
  }

  /** The hrefs that one child leads to requests for: its own, or those of its sub-list. */
  function ChildHrefs(c: Element): seq<string>
    decreases c
  {
    if IsLeaf(c) then [Href(Anchors(c.children)[0]).value]
    else if c.tag == "ul" then Hrefs(c.children)
    else []
  }

  /** How deeply `ul` elements nest in the sibling list `cs`. */
  function UlDepth(cs: seq<Element>): nat
    decreases cs
  {
    if cs == [] then 0
    else
      var before := UlDepth(cs[..|cs| - 1]);
      var here := ChildDepth(cs[|cs| - 1]);
      if here > before then here else before
  }

  /** How deeply `ul`s nest in one child, itself included. */
  function ChildDepth(c: Element): nat
    decreases c
  {
    if c.tag == "ul" then 1 + UlDepth(c.children) else 0
  }

  /** The children that set the section title: every leaf, and every `li` without an anchor. */
  predicate SetsTitle(c: Element)
  {
    IsLeaf(c) || IsHeading(c)
  }

  /** The title such a child sets: the stripped text of its first anchor, or of itself. */
  function TitleOf(c: Element): string
    requires SetsTitle(c) && LiTextPresent(c)
  {
    if IsLeaf(c) then Strip(Anchors(c.children)[0].text.value) else Strip(c.text.value)
  }

  // ---------------------------------------------------------------------------------------
  // Views of a trace

  /** The requests in a trace, in order. */
  function Requests(acts: seq<Action>): seq<Action>
  {
    if acts == [] then []
    else (if acts[0].Get? then [acts[0]] else []) + Requests(acts[1..])
  }

  /** How many actions of a trace satisfy `p`. */
  function Count(acts: seq<Action>, p: Action -> bool): nat
  {
    if acts == [] then 0 else (if p(acts[0]) then 1 else 0) + Count(acts[1..], p)
  }

  predicate IsOutcome(a: Action) { a.Write? || a.LogError? }

  predicate IsSleep(a: Action) { a.Sleep? }

  /** The action that follows a request: a written file on 200, else the logged status. */
  predicate Answers(g: Action, o: Action)
  {
    g.Get? && if g.status == 200 then o.Write? else o == LogError(g.status)
  }

  /**
   * A trace made of directory creations and download blocks: a request, its answer and, when
   * `sleeps`, a pause.
   */
  predicate Wf(acts: seq<Action>, sleeps: bool)
    decreases |acts|
  {
    if acts == [] then true
    else if acts[0].MkDir? then Wf(acts[1..], sleeps)
    else
      var w := if sleeps then 3 else 2;
      |acts| >= w && Answers(acts[0], acts[1]) && (sleeps ==> acts[2] == Sleep) && Wf(acts[w..], sleeps)
  }

  // ---------------------------------------------------------------------------------------
  // Facts about traces

  lemma {:induction false} RequestsAppend(a: seq<Action>, b: seq<Action>)
    ensures Requests(a + b) == Requests(a) + Requests(b)
  {
    if a != [] {
      assert (a + b)[0] == a[0];
      assert (a + b)[1..] == a[1..] + b;
      RequestsAppend(a[1..], b);
      var h := if a[0].Get? then [a[0]] else [];
      assert h + (Requests(a[1..]) + Requests(b)) == (h + Requests(a[1..])) + Requests(b);
    } else {
      assert a + b == b;
    }
  }

  lemma {:induction false} CountAppend(a: seq<Action>, b: seq<Action>, p: Action -> bool)
    ensures Count(a + b, p) == Count(a, p) + Count(b, p)
  {
    if a != [] {
      assert (a + b)[0] == a[0];
      assert (a + b)[1..] == a[1..] + b;
      CountAppend(a[1..], b, p);
    } else {
      assert a + b == b;
    }
  }

  lemma {:induction false} WfAppend(a: seq<Action>, b: seq<Action>, sleeps: bool)
    requires Wf(a, sleeps) && Wf(b, sleeps)
    ensures Wf(a + b, sleeps)
    decreases |a|
  {
    if a != [] {
      var w := if a[0].MkDir? then 1 else if sleeps then 3 else 2;
      assert |a| >= w;
      assert (a + b)[0] == a[0];
      assert w >= 2 ==> (a + b)[1] == a[1];
      assert w == 3 ==> (a + b)[2] == a[2];
      assert (a + b)[w..] == a[w..] + b;
      WfAppend(a[w..], b, sleeps);
    } else {
      assert a + b == b;
    }
  }

  lemma RequestsCons(a: Action, rest: seq<Action>)
    ensures Requests([a] + rest) == (if a.Get? then [a] else []) + Requests(rest)
  {
    assert ([a] + rest)[1..] == rest;
  }

  lemma CountCons(a: Action, rest: seq<Action>, p: Action -> bool)
    ensures Count([a] + rest, p) == (if p(a) then 1 else 0) + Count(rest, p)
  {
    assert ([a] + rest)[1..] == rest;
  }

  /** The counts of the block a well-formed trace starts with. */
  lemma BlockCounts(acts: seq<Action>, sleeps: bool)
    requires acts != [] && Wf(acts, sleeps)
    ensures var w := if acts[0].MkDir? then 1 else if sleeps then 3 else 2;
      var b := acts[..w];
      Count(b, IsOutcome) == |Requests(b)| &&
      Count(b, IsSleep) == (if sleeps then |Requests(b)| else 0)
  {
    var w := if acts[0].MkDir? then 1 else if sleeps then 3 else 2;
    var b := acts[..w];
    var tail := if w == 1 then [] else if w == 2 then [acts[1]] else [acts[1], acts[2]];
    assert b == [acts[0]] + tail;
    RequestsCons(acts[0], tail);
    CountCons(acts[0], tail, IsOutcome);
    CountCons(acts[0], tail, IsSleep);
    if w >= 2 {
      var t2 := if w == 2 then [] else [acts[2]];
      assert tail == [acts[1]] + t2;
      assert Answers(acts[0], acts[1]);
      RequestsCons(acts[1], t2);
      CountCons(acts[1], t2, IsOutcome);
      CountCons(acts[1], t2, IsSleep);
      if w == 3 {
        RequestsCons(acts[2], []);
        CountCons(acts[2], [], IsOutcome);
        CountCons(acts[2], [], IsSleep);
      }
    }
  }

  /** A well-formed trace has exactly one answer per request, and one pause per request when it sleeps. */
  lemma {:induction false} WfCounts(acts: seq<Action>, sleeps: bool)
    requires Wf(acts, sleeps)
    ensures Count(acts, IsOutcome) == |Requests(acts)|
    ensures Count(acts, IsSleep) == if sleeps then |Requests(acts)| else 0
    decreases |acts|
  {
    if acts != [] {
      var w := if acts[0].MkDir? then 1 else if sleeps then 3 else 2;
      assert acts == acts[..w] + acts[w..];
      WfCounts(acts[w..], sleeps);
      BlockCounts(acts, sleeps);
      RequestsAppend(acts[..w], acts[w..]);
      CountAppend(acts[..w], acts[w..], IsOutcome);
      CountAppend(acts[..w], acts[w..], IsSleep);
    }
  }

  /**
   * In a well-formed trace, each request is followed by its answer (a written file exactly
   * when the status is 200) and, exactly when the trace sleeps, by a pause; each answer is
   * preceded by its request; a pause only ever follows an answer.
   */
  lemma {:induction false} WfShape(acts: seq<Action>, sleeps: bool, k: nat)
    requires Wf(acts, sleeps) && k < |acts|
    ensures acts[k].Get? ==> k + 1 < |acts| && Answers(acts[k], acts[k + 1])
    ensures acts[k].Get? && sleeps ==> k + 2 < |acts| && acts[k + 2] == Sleep
    ensures IsOutcome(acts[k]) ==> k >= 1 && Answers(acts[k - 1], acts[k])
    ensures acts[k].Sleep? ==> sleeps && k >= 2 && Answers(acts[k - 2], acts[k - 1])
    decreases |acts|
  {
    var w := if acts[0].MkDir? then 1 else if sleeps then 3 else 2;
    if k >= w {
      WfShape(acts[w..], sleeps, k - w);
      assert acts[w..][k - w] == acts[k];
      assert k - w + 1 < |acts[w..]| ==> acts[w..][k - w + 1] == acts[k + 1];
      assert k - w + 2 < |acts[w..]| ==> acts[w..][k - w + 2] == acts[k + 2];
      assert k - w >= 1 ==> acts[w..][k - w - 1] == acts[k - 1];
      assert k - w >= 2 ==> acts[w..][k - w - 2] == acts[k - 2];
    }
  }

  // ---------------------------------------------------------------------------------------
  // One download

  /** One download is a single request followed by its answer (and pause), and creates no directory. */
  lemma DownloadFacts(dir: Path, url: string, fname: string, status: int, delay: real)
    ensures var dl := Download(dir, url, fname, status, delay);
      Requests(dl) == [Get(url, status)] && Wf(dl, delay > 0.0) &&
      forall k :: 0 <= k < |dl| ==> !dl[k].MkDir? && (dl[k].Write? ==> dl[k].file == dir + [fname])
  {
    var dl := Download(dir, url, fname, status, delay);
    var o := dl[1];
    var pause := if delay > 0.0 then [Sleep] else [];
    assert dl == [Get(url, status)] + ([o] + pause);
    RequestsCons(Get(url, status), [o] + pause);
    RequestsCons(o, pause);
    if delay > 0.0 {
      RequestsCons(Sleep, []);
      assert dl[3..] == [];
    } else {
      assert dl[2..] == [];
    }
    assert Requests([]) == [];
  }

  // ---------------------------------------------------------------------------------------
  // Requests: exactly one per leaf, to prefix + "/" + href, in document order, answered in turn

  /** The requests `q` go, in order, to `prefix + "/" + hs[k]`, answered by `status(n + k)`. */
  predicate Matches(q: seq<Action>, hs: seq<string>, prefix: string, status: nat -> int, n: nat)
    decreases |q|
  {
    |q| == |hs| &&
    (q != [] ==> q[0] == Get(Url(prefix, hs[0]), status(n)) && Matches(q[1..], hs[1..], prefix, status, n + 1))
  }

  lemma {:induction false} MatchesAppend(q1: seq<Action>, h1: seq<string>, q2: seq<Action>, h2: seq<string>, prefix: string, status: nat -> int, n: nat)
    requires Matches(q1, h1, prefix, status, n)
    requires Matches(q2, h2, prefix, status, n + |h1|)
    ensures Matches(q1 + q2, h1 + h2, prefix, status, n)
    decreases |q1|
  {
    if q1 == [] {
      assert q1 + q2 == q2 && h1 + h2 == h2;
    } else {
      MatchesAppend(q1[1..], h1[1..], q2, h2, prefix, status, n + 1);
      assert (q1 + q2)[1..] == q1[1..] + q2;
      assert (h1 + h2)[1..] == h1[1..] + h2;
    }
  }

  /** Two traces whose requests match two href lists have, together, requests matching both. */
  lemma RequestsMatchAppend(a1: seq<Action>, h1: seq<string>, a2: seq<Action>, h2: seq<string>, prefix: string, status: nat -> int, n: nat, m: nat)
    requires Matches(Requests(a1), h1, prefix, status, n)
    requires Matches(Requests(a2), h2, prefix, status, m) && m == n + |h1|
    ensures Matches(Requests(a1 + a2), h1 + h2, prefix, status, n)
  {
    RequestsAppend(a1, a2);
    MatchesAppend(Requests(a1), h1, Requests(a2), h2, prefix, status, n);
  }

  /** The indexed reading of `Matches`. */
  lemma {:induction false} MatchesAt(q: seq<Action>, hs: seq<string>, prefix: string, status: nat -> int, n: nat, k: nat)
    requires Matches(q, hs, prefix, status, n) && k < |q|
    ensures |q| == |hs| && q[k] == Get(Url(prefix, hs[k]), status(n + k))
    decreases k
  {
    if k > 0 {
      MatchesAt(q[1..], hs[1..], prefix, status, n + 1, k - 1);
    }
  }

  /**
   * The requests of the walk over `cs` are exactly one per href of `Hrefs(cs)`, in that
   * order, to `prefix + "/" + href`, answered in turn by the oracle from its n-th answer on.
   */
  lemma {:induction false} WalkRequests(cs: seq<Element>, dir: Path, prefix: string, delay: real, status: nat -> int, n: nat)
    requires TextsPresent(cs)
    ensures var r := Walk(cs, dir, prefix, delay, status, n);
      Matches(Requests(r.actions), Hrefs(cs), prefix, status, n) && r.served == n + |Hrefs(cs)|
    decreases cs
  {
    if cs == [] {
      RequestsCons(MkDir(dir), []);
    } else {
      var init, c := cs[..|cs| - 1], cs[|cs| - 1];
      var f := Walk(init, dir, prefix, delay, status, n);
      var v := Visit(c, f, dir, prefix, delay, status);
      assert Walk(cs, dir, prefix, delay, status, n) == Frame(v.title, f.actions + v.actions, v.served);
      assert Hrefs(cs) == Hrefs(init) + ChildHrefs(c);
      WalkRequests(init, dir, prefix, delay, status, n);
      VisitRequests(c, f, dir, prefix, delay, status);
      RequestsMatchAppend(f.actions, Hrefs(init), v.actions, ChildHrefs(c), prefix, status, n, f.served);
    }
  }

  /** The requests one child leads to, given the frame before it. */
  lemma {:induction false} VisitRequests(c: Element, f: Frame, dir: Path, prefix: string, delay: real, status: nat -> int)
    requires ChildPresent(c)
    ensures var v := Visit(c, f, dir, prefix, delay, status);
      Matches(Requests(v.actions), ChildHrefs(c), prefix, status, f.served) && v.served == f.served + |ChildHrefs(c)|
    decreases c
  {
    if IsLeaf(c) {
      var a := Anchors(c.children)[0];
      var h := Href(a).value;
      DownloadFacts(dir, Url(prefix, h), Filename(h, Strip(a.text.value)), status(f.served), delay);
      var q := Requests(Visit(c, f, dir, prefix, delay, status).actions);
      assert q == [Get(Url(prefix, h), status(f.served))];
      assert q[1..] == [] && [h][1..] == [];
    } else if c.tag == "ul" {
      WalkRequests(c.children, dir + [f.title], prefix, delay, status, f.served);
    } else {
      assert Requests([]) == [];
    }
  }

  /**
   * A whole call of `process` requests, in document order, exactly one URL per leaf below it:
   * the k-th request goes to `prefix + "/" + Hrefs(e)[k]` and is the (n+k)-th of the run.
   */
  lemma RequestsInOrder(e: Element, dir: Path, prefix: string, delay: real, status: nat -> int, n: nat)
    requires TextsPresent(e.children)
    ensures var r := Run(e, dir, prefix, delay, status, n);
      var q := Requests(r.actions);
      var hs := Hrefs(e.children);
      |q| == |hs| && r.served == n + |hs| &&
      forall k :: 0 <= k < |q| ==> q[k] == Get(prefix + "/" + hs[k], status(n + k))
  {
    var r := Run(e, dir, prefix, delay, status, n);
    var hs := Hrefs(e.children);
    WalkRequests(e.children, dir, prefix, delay, status, n);
    forall k | 0 <= k < |Requests(r.actions)|
      ensures Requests(r.actions)[k] == Get(prefix + "/" + hs[k], status(n + k))
    {
      MatchesAt(Requests(r.actions), hs, prefix, status, n, k);
    }
  }

  // ---------------------------------------------------------------------------------------
  // The shape of the trace

  /** Every trace the walk produces is made of directory creations and download blocks. */
  lemma {:induction false} WalkWellFormed(cs: seq<Element>, dir: Path, prefix: string, delay: real, status: nat -> int, n: nat)
    requires TextsPresent(cs)
    ensures Wf(Walk(cs, dir, prefix, delay, status, n).actions, delay > 0.0)
    decreases cs
  {
    if cs == [] {
      assert [MkDir(dir)][1..] == [];
    } else {
      var init, c := cs[..|cs| - 1], cs[|cs| - 1];
      var f := Walk(init, dir, prefix, delay, status, n);
      WalkWellFormed(init, dir, prefix, delay, status, n);
      VisitWellFormed(c, f, dir, prefix, delay, status);
      WfAppend(f.actions, Visit(c, f, dir, prefix, delay, status).actions, delay > 0.0);
    }
  }

  lemma {:induction false} VisitWellFormed(c: Element, f: Frame, dir: Path, prefix: string, delay: real, status: nat -> int)
    requires ChildPresent(c)
    ensures Wf(Visit(c, f, dir, prefix, delay, status).actions, delay > 0.0)
    decreases c
  {
    if IsLeaf(c) {
      var a := Anchors(c.children)[0];
      var h := Href(a).value;
      DownloadFacts(dir, Url(prefix, h), Filename(h, Strip(a.text.value)), status(f.served), delay);
    } else if c.tag == "ul" {
      WalkWellFormed(c.children, dir + [f.title], prefix, delay, status, f.served);
    }
  }

  /**
   * No leaf is dropped: a whole call of `process` makes one request per leaf below it, answers
   * each with exactly one written file or logged error, pauses after each exactly when the
   * delay is positive, and in its trace a file is written right after a request exactly when
   * that request's status is 200.
   */
  lemma DownloadsAccounted(e: Element, dir: Path, prefix: string, delay: real, status: nat -> int, n: nat)
    requires TextsPresent(e.children)
    ensures var acts := Run(e, dir, prefix, delay, status, n).actions;
      var leaves := |Hrefs(e.children)|;
      |Requests(acts)| == leaves &&
      Count(acts, IsOutcome) == leaves &&
      Count(acts, IsSleep) == (if delay > 0.0 then leaves else 0) &&
      forall k :: 0 <= k < |acts| && acts[k].Get? ==>
        k + 1 < |acts| && (acts[k + 1].Write? <==> acts[k].status == 200)
  {
    var acts := Run(e, dir, prefix, delay, status, n).actions;
    RequestsInOrder(e, dir, prefix, delay, status, n);
    WalkWellFormed(e.children, dir, prefix, delay, status, n);
    WfCounts(acts, delay > 0.0);
    forall k | 0 <= k < |acts| && acts[k].Get?
      ensures k + 1 < |acts| && (acts[k + 1].Write? <==> acts[k].status == 200)
    {
      WfShape(acts, delay > 0.0, k);
    }
  }

  // ---------------------------------------------------------------------------------------
  // The section title

  /** A child sets the title to `TitleOf` it exactly when `SetsTitle`; any other keeps it. */
  lemma VisitTitle(c: Element, f: Frame, dir: Path, prefix: string, delay: real, status: nat -> int)
    requires ChildPresent(c)
    ensures var v := Visit(c, f, dir, prefix, delay, status);
      (SetsTitle(c) ==> v.title == TitleOf(c)) && (!SetsTitle(c) ==> v.title == f.title)
  {
  }

  /**
   * After the children `cs`, the title is the one set by the last of them that sets a title,
   * or the placeholder when none does. `ul` children never set it, so nothing a nested call
   * does is seen by the following siblings.
   */
  lemma {:induction false} TitleIsMostRecent(cs: seq<Element>, dir: Path, prefix: string, delay: real, status: nat -> int, n: nat)
    requires TextsPresent(cs)
    ensures var t := Walk(cs, dir, prefix, delay, status, n).title;
      ((forall k :: 0 <= k < |cs| ==> !SetsTitle(cs[k])) ==> t == Untitled) &&
      forall k :: (0 <= k < |cs| && SetsTitle(cs[k]) &&
                   (forall j :: k < j < |cs| ==> !SetsTitle(cs[j]))) ==>
        LiTextPresent(cs[k]) && t == TitleOf(cs[k])
    decreases cs
  {
    if cs != [] {
      var init, c := cs[..|cs| - 1], cs[|cs| - 1];
      var f := Walk(init, dir, prefix, delay, status, n);
      TitleIsMostRecent(init, dir, prefix, delay, status, n);
      VisitTitle(c, f, dir, prefix, delay, status);
      assert forall k :: 0 <= k < |init| ==> init[k] == cs[k];
    }
  }

  // ---------------------------------------------------------------------------------------
  // Effects of each kind of child

  /** Every call starts by creating its own directory. */
  lemma {:induction false} WalkStartsWithMkDir(cs: seq<Element>, dir: Path, prefix: string, delay: real, status: nat -> int, n: nat)
    requires TextsPresent(cs)
    ensures var acts := Walk(cs, dir, prefix, delay, status, n).actions;
      acts != [] && acts[0] == MkDir(dir)
    decreases cs
  {
    if cs != [] {
      WalkStartsWithMkDir(cs[..|cs| - 1], dir, prefix, delay, status, n);
    }
  }

  /** Walking one more child `c` after `cs` extends the frame by what `c` does. */
  lemma WalkSnoc(cs: seq<Element>, c: Element, dir: Path, prefix: string, delay: real, status: nat -> int, n: nat)
    requires TextsPresent(cs + [c])
    ensures TextsPresent(cs) && ChildPresent(c)
    ensures var f := Walk(cs, dir, prefix, delay, status, n);
      var v := Visit(c, f, dir, prefix, delay, status);
      Walk(cs + [c], dir, prefix, delay, status, n) == Frame(v.title, f.actions + v.actions, v.served)
  {
    assert (cs + [c])[..|cs|] == cs;
  }

  /**
   * What an `li` child, or a child that is neither `li` nor `ul`, does after `cs`:
   * - a leaf adds one request to `prefix + "/" + href`, then the file `dir/fname` when the
   *   status is 200 or the logged status otherwise, then a pause exactly when `delay > 0`;
   *   its stripped anchor text becomes the title even when that text is empty;
   * - an `li` without an anchor adds nothing and sets the title to its stripped text;
   * - an `li` whose first anchor has no href or an empty one, and any child that is neither
   *   `li` nor `ul`, add nothing and keep the title.
   */
  lemma ChildEffect(cs: seq<Element>, c: Element, dir: Path, prefix: string, delay: real, status: nat -> int, n: nat)
    requires TextsPresent(cs + [c])
    ensures TextsPresent(cs) && ChildPresent(c)
    ensures var f := Walk(cs, dir, prefix, delay, status, n);
      var g := Walk(cs + [c], dir, prefix, delay, status, n);
      (IsLeaf(c) ==>
         var a := Anchors(c.children)[0];
         var h := Href(a).value;
         var t := Strip(a.text.value);
         var code := status(f.served);
         g.title == t && g.served == f.served + 1 &&
         g.actions == f.actions + [Get(prefix + "/" + h, code)] +
           [if code == 200 then Write(dir + [Filename(h, t)]) else LogError(code)] +
           (if delay > 0.0 then [Sleep] else [])) &&
      (IsHeading(c) ==> g.title == Strip(c.text.value) && g.actions == f.actions && g.served == f.served) &&
      ((c.tag == "li" && !IsLeaf(c) && !IsHeading(c)) || (c.tag != "li" && c.tag != "ul") ==> g == f)
  {
    WalkSnoc(cs, c, dir, prefix, delay, status, n);
    assert Walk(cs, dir, prefix, delay, status, n).actions + [] == Walk(cs, dir, prefix, delay, status, n).actions;
  }

  /**
   * A `ul` after `cs` adds the whole trace of a nested call on `dir + [title]`, where `title`
   * is the current title; that trace starts by creating the subdirectory, and the title
   * after the `ul` is the one before it.
   */
  lemma ListEffect(cs: seq<Element>, c: Element, dir: Path, prefix: string, delay: real, status: nat -> int, n: nat)
    requires TextsPresent(cs + [c]) && c.tag == "ul"
    ensures TextsPresent(cs) && TextsPresent(c.children)
    ensures var f := Walk(cs, dir, prefix, delay, status, n);
      var g := Walk(cs + [c], dir, prefix, delay, status, n);
      var sub := Run(c, dir + [f.title], prefix, delay, status, f.served);
      g.title == f.title && g.served == sub.served && g.actions == f.actions + sub.actions &&
      sub.actions != [] && sub.actions[0] == MkDir(dir + [f.title])
  {
    WalkSnoc(cs, c, dir, prefix, delay, status, n);
    var f := Walk(cs, dir, prefix, delay, status, n);
    WalkStartsWithMkDir(c.children, dir + [f.title], prefix, delay, status, f.served);
  }

  // ---------------------------------------------------------------------------------------
  // Directory depth

  /** Every directory in `acts` lies under `dir` at most `d` levels down; every file one more. */
  predicate Within(acts: seq<Action>, dir: Path, d: nat)
  {
    (forall k :: 0 <= k < |acts| && acts[k].MkDir? ==> dir <= acts[k].dir && |acts[k].dir| <= |dir| + d) &&
    (forall k :: 0 <= k < |acts| && acts[k].Write? ==> dir <= acts[k].file && |acts[k].file| <= |dir| + d + 1)
  }

  /** Some directory in `acts` is exactly `d` levels below `dir`. */
  predicate Reaches(acts: seq<Action>, dir: Path, d: nat)
  {
    exists k :: 0 <= k < |acts| && acts[k].MkDir? && |acts[k].dir| == |dir| + d
  }

  lemma WithinAppend(a1: seq<Action>, a2: seq<Action>, dir: Path, d1: nat, d2: nat, d: nat)
    requires Within(a1, dir, d1) && Within(a2, dir, d2) && d1 <= d && d2 <= d
    ensures Within(a1 + a2, dir, d)
  {
    var acts := a1 + a2;
    forall k | |a1| <= k < |acts| ensures acts[k] == a2[k - |a1|] { }
  }

  lemma ReachesAppend(a1: seq<Action>, a2: seq<Action>, dir: Path, d: nat)
    requires Reaches(a1, dir, d) || Reaches(a2, dir, d)
    ensures Reaches(a1 + a2, dir, d)
  {
    var acts := a1 + a2;
    if Reaches(a1, dir, d) {
      var k :| 0 <= k < |a1| && a1[k].MkDir? && |a1[k].dir| == |dir| + d;
      assert acts[k] == a1[k];
    } else {
      var k :| 0 <= k < |a2| && a2[k].MkDir? && |a2[k].dir| == |dir| + d;
      assert acts[|a1| + k] == a2[k];
    }
  }

  /** A trace under `dir + [t]` at depth `d` is a trace under `dir` at depth `d + 1`. */
  lemma WithinDeeper(acts: seq<Action>, dir: Path, t: string, d: nat)
    requires Within(acts, dir + [t], d)
    ensures Within(acts, dir, d + 1)
  {
    var sub := dir + [t];
    forall k | 0 <= k < |acts| && acts[k].MkDir? ensures dir <= acts[k].dir {
      assert acts[k].dir[..|dir|] == sub[..|dir|] == dir;
    }
    forall k | 0 <= k < |acts| && acts[k].Write? ensures dir <= acts[k].file {
      assert acts[k].file[..|dir|] == sub[..|dir|] == dir;
    }
  }

  /**
   * Every directory the walk creates and every file it writes lies under `dir`; directories
   * go at most `UlDepth` levels deeper and files one more; and some directory is exactly
   * `UlDepth` levels deep, so the deepest directory mirrors the deepest `ul` nesting.
   */
  lemma {:induction false} WalkDepth(cs: seq<Element>, dir: Path, prefix: string, delay: real, status: nat -> int, n: nat)
    requires TextsPresent(cs)
    ensures var acts := Walk(cs, dir, prefix, delay, status, n).actions;
      Within(acts, dir, UlDepth(cs)) && Reaches(acts, dir, UlDepth(cs))
    decreases cs
  {
    var acts := Walk(cs, dir, prefix, delay, status, n).actions;
    if cs == [] {
      assert acts == [MkDir(dir)];
      assert acts[0].MkDir? && |acts[0].dir| == |dir| + UlDepth(cs);
    } else {
      var init, c := cs[..|cs| - 1], cs[|cs| - 1];
      var f := Walk(init, dir, prefix, delay, status, n);
      var v := Visit(c, f, dir, prefix, delay, status);
      WalkDepth(init, dir, prefix, delay, status, n);
      VisitDepth(c, f, dir, prefix, delay, status);
      WithinAppend(f.actions, v.actions, dir, UlDepth(init), ChildDepth(c), UlDepth(cs));
      ReachesAppend(f.actions, v.actions, dir, UlDepth(cs));
    }
  }

  lemma {:induction false} VisitDepth(c: Element, f: Frame, dir: Path, prefix: string, delay: real, status: nat -> int)
    requires ChildPresent(c)
    ensures var acts := Visit(c, f, dir, prefix, delay, status).actions;
      Within(acts, dir, ChildDepth(c)) && (c.tag == "ul" ==> Reaches(acts, dir, ChildDepth(c)))
    decreases c
  {
    if IsLeaf(c) {
      var a := Anchors(c.children)[0];
      var h := Href(a).value;
      DownloadFacts(dir, Url(prefix, h), Filename(h, Strip(a.text.value)), status(f.served), delay);
    } else if c.tag == "ul" {
      WalkDepth(c.children, dir + [f.title], prefix, delay, status, f.served);
      WithinDeeper(Visit(c, f, dir, prefix, delay, status).actions, dir, f.title, UlDepth(c.children));
    }
  }
}
