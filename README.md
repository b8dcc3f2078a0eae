# census crawler — a Dafny model of `process`

crawl.py downloads the census tables of the 2010 Chinese population census. It walks the
nested table-of-contents list on the index page and, for each chapter, makes one directory.
Each linked spreadsheet is saved there under the name of its link text.

The model covers the recursive `process(node, directory, url_prefix, delay)` and the
derivation of `url_prefix` from the index URL. It treats the parsed page as a tree of
`Markup.Element`s (tag, attributes, `.text`, children). Everything `process` does to the
outside world is recorded as an ordered trace of `Crawl.Action`s, one of:

- a directory created;
- a GET and the status it was answered with;
- a file written;
- an error logged;
- a pause.

The project has these modules:

- `Strings` (strings.dfy) covers the Python library pieces the crawler uses.
  - `str.strip()`, with Python's white-space set.
  - `str.split('/')` and `'/'.join`.
  - `str.rfind`.
  - The extension rule of POSIX `os.path.splitext`.
  - Each comes with lemmas stating what it computes, the round trip of `url_prefix` among
    them.
- `Markup` (markup.dfy) covers the element tree and `c.xpath('a')`.
  - It classifies an `li` child as a leaf (first direct anchor with a non-empty href), a
    heading (no direct anchor) or neither.
  - It defines the precondition that every `.text` the crawler reads is present. With a
    missing text, crawl.py raises.
- `Crawl` (crawl.dfy) holds the specification function `Walk` and its imperative
  counterpart.
  - `Walk` gives the frame of a call of `process` after a list of siblings: the current
    title, the trace so far and the number of requests answered.
  - `Host` is a class holding the effect log and the request counter. It is answered by a
    status oracle: the k-th request of the run gets `status(k)`.
  - The methods `Process`, `NextChild`, `VisitChild` and `Fetch` follow the source's loop
    and recursion. Each is proved to leave on the host exactly the trace `Walk` plans.
  - `Crawl` is the script's entry point.
- `CrawlFacts` (crawl_facts.dfy) proves what the walk guarantees:
  - one request per leaf, in document order, to `url_prefix + "/" + href`;
  - every request answered by exactly one written file (status 200) or logged error;
  - a pause after every download exactly when the delay is positive;
  - each directory made before anything done inside it;
  - the section title threaded as the most recent leaf or heading;
  - directory depth equal to the `ul` nesting depth.

Paths are lists of components: `os.path.join(d, x)` is `d + [x]`.

The model follows crawl.py as written:

- A child is classified by its tag and its first direct `a` child.
- Titles and file names are used unchanged.
- An href without an extension gets the literal suffix `xsl`, with no dot.

## Model

| member | source | states |
|---|---|---|
| Strings.TrimLeftSpec | crawl.py:35 | `TrimLeft` removes exactly the leading run of white space: the result is a suffix, what it drops is all white space, and it does not start with white space |
| Strings.TrimRightSpec | crawl.py:35 | `TrimRight` removes exactly the trailing run of white space: the result is a prefix, what it drops is all white space, and it does not end with white space |
| Strings.StripSpec | crawl.py:35 | `strip()` gives a slice of the text with only white space around it, and the slice neither starts nor ends with white space |
| Strings.StripIdempotent | crawl.py:35 | stripping a stripped title changes nothing |
| Strings.StripEmpty | crawl.py:36 | the stripped title is empty (the `if title:` test fails) exactly when the anchor text is all white space |
| Strings.Split | crawl.py:42 | `split('/')` always yields at least one piece, so `[-1]` is defined |
| Strings.SplitNoSlash | crawl.py:42 | no piece of `split('/')` contains a '/' |
| Strings.SplitSingle | crawl.py:70 | a URL splits into one piece, itself, exactly when it has no '/', and into two or more otherwise |
| Strings.JoinSplit | crawl.py:70 | `'/'.join(s.split('/')) == s` |
| Strings.JoinSnoc | crawl.py:70 | joining one more piece adds one '/' and that piece |
| Strings.LastIndexOf | crawl.py:37 | the index `rfind` returns is -1 or a position in the string |
| Strings.LastIndexOfSpec | crawl.py:37 | `rfind` returns the last occurrence of the character, and -1 when there is none |
| Strings.ExtensionSpec | crawl.py:37 | `splitext`'s extension is non-empty exactly when the href has an extension start (a last '.' in the final segment with a non-'.' before it); it is then the text from that '.' on and contains no '/' |
| Strings.PrefixRoundTrip | crawl.py:70 | `url_prefix + "/" + url.split('/')[-1] == url` when the URL has a '/'; otherwise the prefix is empty and the last segment is the whole URL |
| Strings.LastSegmentIsTail | crawl.py:42 | `href.split('/')[-1]` is the suffix of the href after its last '/', or all of it, and has no '/' |
| Markup.AnchorsSpec | crawl.py:27 | `c.xpath('a')` returns exactly the direct `a` children, and its first member is the first of them in document order |
| Markup.PresentParts | crawl.py:25 | the texts read are present for every prefix of a sibling list, and for each of its members, when they are for the whole list |
| Crawl.FilenameSpec | crawl.py:35-42 | with a non-empty title the file name is the title plus the href's extension, or the title plus "xsl" when there is none; with an empty title it is the href's final '/'-free segment |
| Crawl.WalkStep | crawl.py:25-65 | walking one more child extends the trace by what that child does and by nothing else |
| Crawl.Host.constructor | crawl.py:16 | a host starts with an empty log and no request answered |
| Crawl.Host.MakeDirs | crawl.py:21 | `os.makedirs` appends one directory creation to the log |
| Crawl.Host.Request | crawl.py:48 | `requests.get` appends one request, answered by the oracle's next status, and counts it |
| Crawl.Host.WriteFile | crawl.py:50-51 | writing the body appends one file write |
| Crawl.Host.ReportError | crawl.py:53 | `logging.error` appends the logged status |
| Crawl.Host.Pause | crawl.py:57 | `time.sleep` appends one pause |
| Crawl.Process | crawl.py:16-65 | `process` leaves on the host exactly the trace and request count that `Run` plans: first its directory, then each child in turn |
| Crawl.NextChild | crawl.py:25-65 | one turn of the loop moves the log, the request count and the title from the frame after the first i children to the frame after i+1 |
| Crawl.VisitChild | crawl.py:26-65 | the loop body for one child appends exactly what `Visit` plans for it and returns the title the next child sees |
| Crawl.Fetch | crawl.py:44-57 | one download logs the request, then a written file on status 200 or the logged status otherwise, then a pause exactly when the delay is positive |
| Crawl.Crawl | crawl.py:70-80 | the script walks the root list into the output directory with the prefix derived from the index URL |
| CrawlFacts.BlockCounts | crawl.py:44-57 | the first block of a well-formed trace has as many answers as requests, and as many pauses when pausing |
| CrawlFacts.WfCounts | crawl.py:44-57 | a well-formed trace has exactly one answer per request, and one pause per request exactly when it pauses |
| CrawlFacts.WfShape | crawl.py:48-57 | in a well-formed trace every request is followed by its answer and then, when pausing, a pause; every answer follows its request; every pause follows an answer |
| CrawlFacts.DownloadFacts | crawl.py:44-57 | one download is a single request to its URL, forms one well-formed block and creates no directory; its only file lies in the current directory |
| CrawlFacts.WalkRequests | crawl.py:25-32 | the requests of a walk over a sibling list go one per leaf below it, in document order, to `prefix + "/" + href`, answered by consecutive statuses |
| CrawlFacts.VisitRequests | crawl.py:26-65 | a leaf makes one request, a `ul` the requests of its nested call, any other child none |
| CrawlFacts.RequestsInOrder | crawl.py:25-65 | a whole call makes exactly one request per leaf below it: the k-th goes to `url_prefix + "/"` plus the k-th leaf's href and is the (n+k)-th of the run |
| CrawlFacts.WalkWellFormed | crawl.py:44-57 | every trace a walk produces consists of directory creations and download blocks |
| CrawlFacts.VisitWellFormed | crawl.py:26-65 | what one child adds is made of directory creations and download blocks |
| CrawlFacts.DownloadsAccounted | crawl.py:44-57 | a call answers each leaf's request with exactly one file or logged error and pauses once per leaf exactly when the delay is positive; a file follows a request exactly when its status is 200 |
| CrawlFacts.VisitTitle | crawl.py:35-65 | leaves and headings set the title to their stripped text; any other child, a `ul` included, keeps it |
| CrawlFacts.TitleIsMostRecent | crawl.py:24-65 | after some children the title is the one set by the last leaf or heading among them, or '未命名' when there is none; nested lists do not affect it |
| CrawlFacts.WalkStartsWithMkDir | crawl.py:19-21 | every call's trace starts by creating its own directory |
| CrawlFacts.WalkSnoc | crawl.py:25 | walking one more child after a list appends that child's effects to the list's trace |
| CrawlFacts.ChildEffect | crawl.py:26-63 | a leaf appends a request to `prefix + "/" + href`, then the file `join(directory, fname)` on status 200 or the logged status otherwise, then a pause when the delay is positive, and its stripped link text (maybe empty) becomes the title; an anchorless `li` appends nothing and makes its stripped text the title; an `li` whose first anchor has no href or an empty one, and any child that is neither `li` nor `ul`, changes nothing |
| CrawlFacts.ListEffect | crawl.py:63-65 | a `ul` appends the whole trace of a nested call on `join(directory, title)`, which starts by creating that directory; the title after it is unchanged |
| CrawlFacts.WalkDepth | crawl.py:21-65 | every directory made lies under the call's directory, at most as many levels down as `ul`s nest, with files one level further; some directory is exactly that deep |
| CrawlFacts.VisitDepth | crawl.py:63-65 | what one child adds lies within its own nesting depth, and a `ul` reaches that depth |

## Left out

- HTTP is reduced to a status oracle indexed by request number. Response bodies, `rsp.reason`, encodings, timeouts and exceptions are not modelled.
- Page parsing is not modelled: lxml's HTML parser and the XPath that selects the root list (crawl.py:75-78). `Crawl.Crawl` takes the parsed root list as a parameter.
- The file system is reduced to the log of `os.makedirs` and file writes. Not modelled: what already exists on disk, files overwritten by a later download with the same name (the known gap the source notes at line 45), and write failures.
- Paths are lists of components, and `os.path.join(d, x)` is modelled as appending `x` to `d`. The file-system meaning of these cases is not captured:
  - an absolute title, which restarts the path;
  - a title or file name containing '/', which nests further;
  - a title "." or "..", which names the same directory or its parent;
  - an empty component. A leaf's anchor text or a heading's text that strips to "" names the same directory for a following `ul` (crawl.py:35, 61, 65). An empty text with an href ending in '/' gives the file name "" (crawl.py:42, 44), and then `open` fails on status 200.
- CrawlFacts.WalkDepth: states depth over component lists. For the path cases above, "under the call's directory" and "some directory is exactly that deep" do not describe the directories on disk.
- `delay` is an exact real, not a float. The default `delay=None` is not modelled: crawl.py would raise comparing `None > 0`. The script itself passes 0.1.
- The `logging.info` progress lines are not part of the trace. Only `logging.error` is.
- A missing `.text` makes crawl.py raise. The model instead requires texts to be present as a precondition (`Markup.TextsPresent`), and only for the texts the crawler actually reads.
- `Strings.IsSpace` covers the characters for which Python's `str.isspace()` holds, and no Unicode character properties beyond those listed.
- The hard-coded index URL, output directory name and delay (crawl.py:68-80) are parameters of `Crawl.Crawl`.
- Crawl.Host.Request: models the answer as a status code only. What is written on 200 is not tracked.
