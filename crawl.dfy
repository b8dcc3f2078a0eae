/**
 * The planner of crawl.py: `process(node, directory, url_prefix, delay)` walks the children of
 * a `ul`, downloads every `li` leaf into `directory` and recurses into nested `ul`s, naming
 * each subdirectory after the most recent section title.
 *
 * The effects it has (making a directory, a GET, writing a file, logging an error, sleeping)
 * are recorded as an ordered trace of `Action`s. `Walk` is the specification: the trace, the
 * final title and the number of requests after the first `i` children of an element.
 * `Process` is the loop of crawl.py, performing the same effects on a `Host`.
 */
module Crawl {
  import opened Wrappers
  import opened Strings
  import opened Markup

  /** One effect of the crawler, in the order it happens. */
  datatype Action =
    | MkDir(dir: Path)                 // os.makedirs(directory, exist_ok=True)
    | Get(url: string, status: int)    // requests.get(url), answered with this status code
    | Write(file: Path)                // the response body written to this file
    | LogError(code: int)              // logging.error of a non-200 status
    | Sleep                            // time.sleep(delay)

  /** The state of one call of `process` after some of its children. */
  datatype Frame = Frame(title: string, actions: seq<Action>, served: nat)

  /** The title a call starts with ("untitled"). */
  const Untitled: string := "未命名"

  /** The download URL of a leaf, `'{}/{}'.format(url_prefix, href)`. */
  function Url(prefix: string, href: string): string
  {
    prefix + "/" + href
  }

  /**
   * The file name of a leaf whose href is `href` and whose stripped anchor text is `title`:
   * the title followed by the href's extension (or the literal "xsl" when it has none), or,
   * for an empty title, the href's last '/'-separated segment.
   */
  function Filename(href: string, title: string): string
  {
    if title != [] then
      var ext := Extension(href);
      title + (if ext == [] then "xsl" else ext)
    else
      LastSegment(href)
  }

  /**
   * With a title, the file name is the title and the href's extension, or the title and
   * "xsl" when the href has no extension; without one, it is the href's final segment.
   */
  lemma FilenameSpec(href: string, title: string)
    ensures var r := Filename(href, title);
      (title != [] ==> forall d :: ExtensionAt(href, d) ==> r == title + href[d..]) &&
      (title != [] && (forall d :: !ExtensionAt(href, d)) ==> r == title + "xsl") &&
      (title == [] ==>
         '/' !in r && |r| <= |href| && r == href[|href| - |r|..] &&
         (|r| == |href| || href[|href| - |r| - 1] == '/'))
  {
    ExtensionSpec(href);
    LastSegmentIsTail(href);
  }

  /** The effects of downloading one leaf: the request, its outcome and the optional pause. */
  function Download(dir: Path, url: string, fname: string, status: int, delay: real): seq<Action>
  {
    [Get(url, status), if status == 200 then Write(dir + [fname]) else LogError(status)] +
    (if delay > 0.0 then [Sleep] else [])
  }

  /**
   * The call `process(e, dir, prefix, delay)` after the children `cs` (a prefix of
   * `e.children`), when `n` requests had been answered before the call and the k-th request
   * of the run is answered with `status(k)`.
   */
  function Walk(cs: seq<Element>, dir: Path, prefix: string, delay: real, status: nat -> int, n: nat): Frame
    requires TextsPresent(cs)
    decreases cs
  {
    if cs == [] then Frame(Untitled, [MkDir(dir)], n)
    else
      var f := Walk(cs[..|cs| - 1], dir, prefix, delay, status, n);
      var v := Visit(cs[|cs| - 1], f, dir, prefix, delay, status);
      Frame(v.title, f.actions + v.actions, v.served)
  }

  /**
   * What one child `c` of the walked element does, given the frame `f` before it: the new
   * title, the effects it adds (only those) and the request count after it.
   */
  function Visit(c: Element, f: Frame, dir: Path, prefix: string, delay: real, status: nat -> int): Frame
    requires ChildPresent(c)
    decreases c
  {
    if c.tag == "li" then
      var anchors := Anchors(c.children);
      if anchors != [] then
        var href := Href(anchors[0]);
        if Truthy(href) then
          var title := Strip(anchors[0].text.value);
          var code := status(f.served);
          var dl := Download(dir, Url(prefix, href.value), Filename(href.value, title), code, delay);
          Frame(title, dl, f.served + 1)
        else Frame(f.title, [], f.served)
      else Frame(Strip(c.text.value), [], f.served)
    else if c.tag == "ul" then
      var sub := Walk(c.children, dir + [f.title], prefix, delay, status, f.served);
      Frame(f.title, sub.actions, sub.served)
    else Frame(f.title, [], f.served)
  }

  /** The call in progress after the first `i` of the sibling list `cs`. */
  function Upto(cs: seq<Element>, i: nat, dir: Path, prefix: string, delay: real, status: nat -> int, n: nat): Frame
    requires TextsPresent(cs) && i <= |cs|
  {
    PresentParts(cs, i);
    Walk(cs[..i], dir, prefix, delay, status, n)
  }

  /** Walking one more child extends the trace by what that child does, and only by that. */
  lemma WalkStep(cs: seq<Element>, i: nat, dir: Path, prefix: string, delay: real, status: nat -> int, n: nat)
    requires TextsPresent(cs) && i < |cs|
    ensures ChildPresent(cs[i])
    ensures var f := Upto(cs, i, dir, prefix, delay, status, n);
      var v := Visit(cs[i], f, dir, prefix, delay, status);
      Upto(cs, i + 1, dir, prefix, delay, status, n) == Frame(v.title, f.actions + v.actions, v.served)
  {
    PresentParts(cs, i);
    PresentParts(cs, i + 1);
    assert cs[..i + 1][..i] == cs[..i];
  }

  /** The whole call `process(e, dir, prefix, delay)`. */
  function Run(e: Element, dir: Path, prefix: string, delay: real, status: nat -> int, n: nat): Frame
    requires TextsPresent(e.children)
  {
    Walk(e.children, dir, prefix, delay, status, n)
  }

  /**
   * The machine the crawler runs on, seen only through the effects `process` has: the log of
   * those effects, and a web server whose k-th answered request gets status `status(k)`.
   */
  class Host {
    var log: seq<Action>
    var requests: nat
    const status: nat -> int

    constructor (status: nat -> int)
      ensures log == [] && requests == 0 && this.status == status
    {
      log := [];
      requests := 0;
      this.status := status;
    }

    /** `os.makedirs(dir, exist_ok=True)`. */
    method MakeDirs(dir: Path)
      modifies this
      ensures log == old(log) + [MkDir(dir)] && requests == old(requests)
    {
      log := log + [MkDir(dir)];
    }

    /** `requests.get(url).status_code`. */
    method Request(url: string) returns (code: int)
      modifies this
      ensures code == status(old(requests))
      ensures log == old(log) + [Get(url, code)] && requests == old(requests) + 1
    {
      code := status(requests);
      log := log + [Get(url, code)];
      requests := requests + 1;
    }

    /** Writing the body of the last response to `file`. */
    method WriteFile(file: Path)
      modifies this
      ensures log == old(log) + [Write(file)] && requests == old(requests)
    {
      log := log + [Write(file)];
    }

    /** `logging.error` of a failed response. */
    method ReportError(code: int)
      modifies this
      ensures log == old(log) + [LogError(code)] && requests == old(requests)
    {
      log := log + [LogError(code)];
    }

    /** `time.sleep(delay)`. */
    method Pause()
      modifies this
      ensures log == old(log) + [Sleep] && requests == old(requests)
    {
      log := log + [Sleep];
    }
  }

  /** crawl.py's `process`: the effects it has on `host` are those `Run` plans. */
  method Process(host: Host, node: Element, directory: Path, urlPrefix: string, delay: real)
    requires TextsPresent(node.children)
    modifies host
    ensures host.log == old(host.log) + Run(node, directory, urlPrefix, delay, host.status, old(host.requests)).actions
    ensures host.requests == Run(node, directory, urlPrefix, delay, host.status, old(host.requests)).served
    decreases node, 1
  {
    ghost var status, n := host.status, host.requests;
    host.MakeDirs(directory);
    var title := Untitled;
    ghost var f := Upto(node.children, 0, directory, urlPrefix, delay, status, n);
    for i := 0 to |node.children|
      invariant f == Upto(node.children, i, directory, urlPrefix, delay, status, n)
      invariant host.log == old(host.log) + f.actions && host.requests == f.served && title == f.title
    {
      title, f := NextChild(host, node, i, title, f, directory, urlPrefix, delay, old(host.log), n);
    }
    assert node.children[..|node.children|] == node.children;
  }

  /**
   * One turn of `process`'s loop, on the child `node.children[i]`: given the frame after the
   * children before it, the log and the request count move on to the frame after it.
   */
  method NextChild(host: Host, node: Element, i: nat, current: string, ghost f: Frame, directory: Path, urlPrefix: string,
                   delay: real, ghost log0: seq<Action>, ghost n: nat)
    returns (title: string, ghost g: Frame)
    requires TextsPresent(node.children) && i < |node.children|
    requires f == Upto(node.children, i, directory, urlPrefix, delay, host.status, n)
    requires host.log == log0 + f.actions && host.requests == f.served && current == f.title
    modifies host
    ensures g == Upto(node.children, i + 1, directory, urlPrefix, delay, host.status, n)
    ensures host.log == log0 + g.actions && host.requests == g.served && title == g.title
    decreases node, 0
  {
    PresentParts(node.children, i);
    ghost var v := Visit(node.children[i], f, directory, urlPrefix, delay, host.status);
    title := VisitChild(host, node.children[i], current, f, directory, urlPrefix, delay);
    WalkStep(node.children, i, directory, urlPrefix, delay, host.status, n);
    g := Frame(v.title, f.actions + v.actions, v.served);
    assert log0 + f.actions + v.actions == log0 + g.actions;
  }

  /** The body of `process`'s loop for one child `c`; returns the title for the next child. */
  method VisitChild(host: Host, c: Element, current: string, ghost f: Frame, directory: Path, urlPrefix: string, delay: real)
    returns (title: string)
    requires ChildPresent(c)
    requires host.requests == f.served && current == f.title
    modifies host
    ensures var v := Visit(c, f, directory, urlPrefix, delay, host.status);
      host.log == old(host.log) + v.actions && host.requests == v.served && title == v.title
    decreases c, 2
  {
    title := current;
    if c.tag == "li" {
      var anchors := Anchors(c.children);
      if anchors != [] {
        var href := Href(anchors[0]);
        if href.Some? && href.value != [] {
          var url := Url(urlPrefix, href.value);
          title := Strip(anchors[0].text.value);
          var fname := Filename(href.value, title);
          Fetch(host, directory, url, fname, delay);
        }
      } else {
        title := Strip(c.text.value);
      }
    } else if c.tag == "ul" {
      Process(host, c, directory + [title], urlPrefix, delay);
    }
  }

  /** Downloading one leaf: the request, the file or the error it leads to, and the pause. */
  method Fetch(host: Host, directory: Path, url: string, fname: string, delay: real)
    modifies host
    ensures host.log == old(host.log) + Download(directory, url, fname, host.status(old(host.requests)), delay)
    ensures host.requests == old(host.requests) + 1
  {
    var path := directory + [fname];
    var code := host.Request(url);
    if code == 200 {
      host.WriteFile(path);
    } else {
      host.ReportError(code);
    }
    if delay > 0.0 {
      host.Pause();
    }
  }

  /**
   * The script's entry: the URL prefix is the index page's URL without its last segment, and
   * the walk starts at the selected root list with the output directory.
   */
  method Crawl(host: Host, indexUrl: string, root: Element, directory: string, delay: real)
    requires TextsPresent(root.children)
    modifies host
    ensures host.log == old(host.log) + Run(root, [directory], UrlPrefix(indexUrl), delay, host.status, old(host.requests)).actions
    ensures host.requests == Run(root, [directory], UrlPrefix(indexUrl), delay, host.status, old(host.requests)).served
  {
    var urlPrefix := UrlPrefix(indexUrl);
    Process(host, root, [directory], urlPrefix, delay);
  }
}
