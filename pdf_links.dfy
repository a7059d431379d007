/**
 * Links gathered from a text file, grouped by the main label of their host
 * name and saved as one `<domain>.txt` file per domain, with arXiv abstract
 * pages rewritten to their PDF. Finding the links in the text and parsing
 * their host are given: each link comes with its network location.
 */
module PdfLinks {
  import opened Wrappers
  import opened Text
  import opened FileTree
  import Ordering

  // ---------------------------------------------------------------------
  // abstract_to_pdf_url

  /** `abstract_url.replace("/abs/", "/pdf/") + ".pdf"`. */
  function AbstractToPdfUrl(url: string): (r: string)
    ensures |r| == |url| + 4
    ensures EndsWith(r, ".pdf")
  {
    ReplaceKeepsLength(url, "/abs/", "/pdf/");
    var r := ReplaceAll(url, "/abs/", "/pdf/") + ".pdf";
    assert r[|r| - 4..] == ".pdf";
    r
  }

  /** A URL with a single `/abs/` gets `/pdf/` there and `.pdf` at the end, and is otherwise unchanged. */
  lemma SingleAbstractRewritten(url: string, j: nat)
    requires OccursAt(url, "/abs/", j)
    requires forall i :: OccursAt(url, "/abs/", i) ==> i == j
    ensures AbstractToPdfUrl(url) == url[..j] + "/pdf/" + url[j + 5..] + ".pdf"
  {
    ReplaceAtFirst(url, "/abs/", "/pdf/", j);
    var tail := url[j + 5..];
    forall i ensures !OccursAt(tail, "/abs/", i) {
      if OccursAt(tail, "/abs/", i) {
        assert url[j + 5 + i..j + 5 + i + 5] == tail[i..i + 5];
        assert OccursAt(url, "/abs/", j + 5 + i);
      }
    }
    ContainsIffOccurs(tail, "/abs/");
    ReplaceAbsent(tail, "/abs/", "/pdf/");
  }

  // ---------------------------------------------------------------------
  // extract_and_save_links_by_domain

  /** A link found in the text, with the network location `urlparse` gives for it. */
  datatype Link = Link(url: string, netloc: string)

  /** `netloc.split(".")[-2]`; a host without a dot has no such label and the call raises `IndexError`. */
  function DomainKey(netloc: string): (d: Option<string>)
    ensures d.Some? ==> '.' !in d.value
  {
    var labels := Split(netloc, '.');
    if |labels| >= 2 then Some(labels[|labels| - 2]) else None
  }

  /** The key of a host is the label before its last one; a host of one label has none. */
  lemma DomainKeyOfLabels(labels: seq<string>)
    requires |labels| >= 1
    requires forall k :: 0 <= k < |labels| ==> '.' !in labels[k]
    ensures DomainKey(Join(labels, ".")) == if |labels| >= 2 then Some(labels[|labels| - 2]) else None
  {
    var host := Join(labels, ".");
    assert "." == ['.'];
    SplitJoin(labels, '.');
    var parts := Split(host, '.');
    assert parts == labels;
    if |labels| >= 2 {
      assert DomainKey(host) == Some(parts[|parts| - 2]);
    } else {
      assert DomainKey(host) == None;
    }
  }

  /** `www.youtube.com` and `arxiv.org` are keyed `youtube` and `arxiv`. */
  lemma DomainKeyExamples()
    ensures DomainKey("www.youtube.com") == Some("youtube")
    ensures DomainKey("arxiv.org") == Some("arxiv")
  {
    DomainKeyOfLabels(["www", "youtube", "com"]);
    assert Join(["www", "youtube", "com"], ".") == "www.youtube.com";
    DomainKeyOfLabels(["arxiv", "org"]);
    assert Join(["arxiv", "org"], ".") == "arxiv.org";
  }

  /** The link as stored: arXiv abstract links are turned into PDF links, all others are kept. */
  function Stored(url: string, domain: string): string {
    if domain == "arxiv" && Contains(url, "/abs/") then AbstractToPdfUrl(url) else url
  }

  /** Only an arXiv link naming an abstract is changed, and then it becomes a PDF link. */
  lemma StoredSpec(url: string, domain: string)
    ensures Stored(url, domain) != url <==> domain == "arxiv" && Contains(url, "/abs/")
    ensures Stored(url, domain) != url ==> EndsWith(Stored(url, domain), ".pdf")
  {
    if domain == "arxiv" && Contains(url, "/abs/") {
      assert |Stored(url, domain)| == |url| + 4;
    }
  }

  /** The `domain_links` dictionary: its keys in insertion order, and each key's set of links. */
  datatype Groups = Groups(order: seq<string>, links: map<string, set<string>>)

  /** The keys are listed once each, in the order of the dictionary. */
  ghost predicate Ordered(g: Groups) {
    (forall d :: d in g.links <==> d in g.order) &&
    (forall i, j :: 0 <= i < j < |g.order| ==> g.order[i] != g.order[j])
  }

  /** One pass of the grouping loop: the link joins its domain's set, a new domain is added last. */
  function AddLink(g: Groups, domain: string, url: string): Groups {
    if domain in g.links then Groups(g.order, g.links[domain := g.links[domain] + {url}])
    else Groups(g.order + [domain], g.links[domain := {url}])
  }

  /** The grouping loop over the links; `None` when a host has no second-to-last label. */
  function Grouped(links: seq<Link>): Option<Groups>
    decreases |links|
  {
    if links == [] then Some(Groups([], map[]))
    else
      var l := links[|links| - 1];
      match (Grouped(links[..|links| - 1]), DomainKey(l.netloc))
      case (Some(g), Some(d)) => Some(AddLink(g, d, Stored(l.url, d)))
      case _ => None
  }

  /** The link `l` belongs to domain `d` and is stored as `u`. */
  predicate FiledAs(l: Link, d: string, u: string) {
    DomainKey(l.netloc) == Some(d) && u == Stored(l.url, d)
  }

  /** A grouping that succeeded on a list succeeded on all its prefixes, ending with the last link's step. */
  lemma GroupedStep(links: seq<Link>)
    requires links != [] && Grouped(links).Some?
    ensures var l := links[|links| - 1]; var init := links[..|links| - 1];
      Grouped(init).Some? && DomainKey(l.netloc).Some? &&
      Grouped(links).value == AddLink(Grouped(init).value, DomainKey(l.netloc).value, Stored(l.url, DomainKey(l.netloc).value))
  {
  }

  /** The grouping fails exactly when some host lacks a second-to-last label. */
  lemma {:induction false} GroupedNone(links: seq<Link>)
    ensures Grouped(links).None? <==> exists i :: 0 <= i < |links| && DomainKey(links[i].netloc).None?
    decreases |links|
  {
    if links != [] {
      var init := links[..|links| - 1];
      GroupedNone(init);
      assert forall i :: 0 <= i < |init| ==> init[i] == links[i];
    }
  }

  lemma {:induction false} GroupedOrdered(links: seq<Link>)
    requires Grouped(links).Some?
    ensures Ordered(Grouped(links).value)
    decreases |links|
  {
    if links != [] {
      GroupedStep(links);
      GroupedOrdered(links[..|links| - 1]);
      var l := links[|links| - 1];
      var g := Grouped(links[..|links| - 1]).value;
      var d := DomainKey(l.netloc).value;
      var g' := AddLink(g, d, Stored(l.url, d));
      if d !in g.links {
        forall i, j | 0 <= i < j < |g'.order| ensures g'.order[i] != g'.order[j] {
          if j == |g.order| {
            assert g'.order[i] == g.order[i] && g.order[i] in g.order;
          } else {
            assert g'.order[i] == g.order[i] && g'.order[j] == g.order[j];
          }
        }
      }
    }
  }

  /** There is one set for each domain that occurs among the links, and no other. */
  lemma {:induction false} GroupedKeys(links: seq<Link>)
    requires Grouped(links).Some?
    ensures forall d :: d in Grouped(links).value.links <==> exists i :: 0 <= i < |links| && DomainKey(links[i].netloc) == Some(d)
    decreases |links|
  {
    if links != [] {
      var init := links[..|links| - 1];
      GroupedStep(links);
      GroupedKeys(init);
      assert forall i :: 0 <= i < |init| ==> init[i] == links[i];
      assert DomainKey(links[|links| - 1].netloc).Some?;
    }
  }

  /** A link is in a domain's set exactly when some link of that domain is stored as it. */
  lemma {:induction false} GroupedMembers(links: seq<Link>)
    requires Grouped(links).Some?
    ensures forall d, u :: d in Grouped(links).value.links ==>
      (u in Grouped(links).value.links[d] <==> exists i :: 0 <= i < |links| && FiledAs(links[i], d, u))
    decreases |links|
  {
    if links != [] {
      var init := links[..|links| - 1];
      var l := links[|links| - 1];
      GroupedStep(links);
      GroupedMembers(init);
      GroupedKeys(init);
      var g := Grouped(init).value;
      var d := DomainKey(l.netloc).value;
      var g' := Grouped(links).value;
      forall e, u | e in g'.links
        ensures u in g'.links[e] <==> exists i :: 0 <= i < |links| && FiledAs(links[i], e, u)
      {
        FiledStep(links, init, e, u);
        MembersStep(g, d, Stored(l.url, d), e, u);
        assert FiledAs(l, e, u) <==> e == d && u == Stored(l.url, d);
      }
    }
  }

  /** A link of the whole list is filed as `u` under `e` when one of the prefix or the last one is. */
  lemma FiledStep(links: seq<Link>, init: seq<Link>, e: string, u: string)
    requires links != [] && init == links[..|links| - 1]
    ensures (exists i :: 0 <= i < |links| && FiledAs(links[i], e, u)) <==>
      (exists i :: 0 <= i < |init| && FiledAs(init[i], e, u)) || FiledAs(links[|links| - 1], e, u)
  {
    if exists i :: 0 <= i < |init| && FiledAs(init[i], e, u) {
      var i :| 0 <= i < |init| && FiledAs(init[i], e, u);
      assert links[i] == init[i];
    }
    if exists i :: 0 <= i < |links| && FiledAs(links[i], e, u) {
      var i :| 0 <= i < |links| && FiledAs(links[i], e, u);
      if i < |init| {
        assert init[i] == links[i];
      }
    }
  }

  /** After adding `url` under `domain`, `e`'s set holds `u` when it did before or `u` is the added link of that domain. */
  lemma MembersStep(g: Groups, domain: string, url: string, e: string, u: string)
    requires e in AddLink(g, domain, url).links
    ensures u in AddLink(g, domain, url).links[e] <==> (e in g.links && u in g.links[e]) || (e == domain && u == url)
  {
  }

  /**
   * The grouping fails exactly when some host lacks a second-to-last label;
   * otherwise there is one set per domain, listed once each, and a link is
   * in a domain's set exactly when some link of that domain is stored as it.
   */
  lemma GroupedSpec(links: seq<Link>)
    ensures Grouped(links).None? <==> exists i :: 0 <= i < |links| && DomainKey(links[i].netloc).None?
    ensures Grouped(links).Some? ==> var g := Grouped(links).value;
      Ordered(g) &&
      (forall d :: d in g.links <==> exists i :: 0 <= i < |links| && DomainKey(links[i].netloc) == Some(d)) &&
      (forall d, u :: d in g.links ==> (u in g.links[d] <==> exists i :: 0 <= i < |links| && FiledAs(links[i], d, u)))
  {
    GroupedNone(links);
    if Grouped(links).Some? {
      GroupedOrdered(links);
      GroupedKeys(links);
      GroupedMembers(links);
    }
  }

  /** What is written for a domain: its distinct links in sorted order, one per line. */
  function Output(links: set<string>): string {
    Join(Ordering.SortedSet(links), "\n")
  }

  /** The file a domain's links are saved in. */
  function OutputPath(saveDir: Path, domain: string): Path {
    saveDir + [domain + ".txt"]
  }

  /** The saving loop over the domains `ds`, in dictionary order. */
  function Written(t: Tree, saveDir: Path, g: Groups, ds: seq<string>): Tree
    requires forall d :: d in ds ==> d in g.links
    decreases |ds|
  {
    if ds == [] then t
    else
      var d := ds[|ds| - 1];
      Written(t, saveDir, g, ds[..|ds| - 1])[OutputPath(saveDir, d) := File(Output(g.links[d]))]
  }

  /** Each domain's file holds its output. */
  lemma {:induction false} WrittenFiles(t: Tree, saveDir: Path, g: Groups, ds: seq<string>)
    requires forall d :: d in ds ==> d in g.links
    ensures forall d :: d in ds ==> (OutputPath(saveDir, d) in Written(t, saveDir, g, ds) &&
      Written(t, saveDir, g, ds)[OutputPath(saveDir, d)] == File(Output(g.links[d])))
    decreases |ds|
  {
    if ds != [] {
      var init := ds[..|ds| - 1];
      var last := ds[|ds| - 1];
      assert ds == init + [last];
      WrittenFiles(t, saveDir, g, init);
      var prev := Written(t, saveDir, g, init);
      var w := Written(t, saveDir, g, ds);
      assert w == prev[OutputPath(saveDir, last) := File(Output(g.links[last]))];
      forall d | d in ds
        ensures OutputPath(saveDir, d) in w && w[OutputPath(saveDir, d)] == File(Output(g.links[d]))
      {
        if d != last {
          assert d in init;
          OutputPathInjective(saveDir, d, last);
        }
      }
    }
  }

  /** Different domains are saved in different files. */
  lemma OutputPathInjective(saveDir: Path, d: string, e: string)
    requires d != e
    ensures OutputPath(saveDir, d) != OutputPath(saveDir, e)
  {
    assert OutputPath(saveDir, d)[|saveDir|] == d + ".txt";
    assert OutputPath(saveDir, e)[|saveDir|] == e + ".txt";
    if |d| == |e| {
      assert (d + ".txt")[..|d|] == d && (e + ".txt")[..|e|] == e;
    }
  }

  /** A path that is no domain's file keeps its entry. */
  lemma {:induction false} WrittenKeeps(t: Tree, saveDir: Path, g: Groups, ds: seq<string>, q: Path)
    requires forall d :: d in ds ==> d in g.links
    requires forall d :: d in ds ==> q != OutputPath(saveDir, d)
    ensures q in Written(t, saveDir, g, ds) <==> q in t
    ensures q in t ==> Written(t, saveDir, g, ds)[q] == t[q]
    decreases |ds|
  {
    if ds != [] {
      var init := ds[..|ds| - 1];
      assert forall d :: d in init ==> d in ds;
      assert ds[|ds| - 1] in ds;
      WrittenKeeps(t, saveDir, g, init, q);
    }
  }

  /** The save directory exists afterwards; nothing else changes. */
  function WithSaveDir(t: Tree, saveDir: Path): Tree {
    if saveDir in t then t else WithDirs(t, saveDir)
  }

  /** What `extract_and_save_links_by_domain` leaves on disk; when the grouping fails nothing is written. */
  function Saved(t: Tree, saveDir: Path, links: seq<Link>): Tree {
    match Grouped(links)
    case None => WithSaveDir(t, saveDir)
    case Some(g) =>
      GroupedSpec(links);
      Written(WithSaveDir(t, saveDir), saveDir, g, g.order)
  }

  /**
   * When every host has a domain key, each domain of the links gets
   * `<domain>.txt` holding the sorted, distinct links stored for it, and no
   * other entry of the tree (with the save directory made) changes.
   */
  lemma SavedSpec(t: Tree, saveDir: Path, links: seq<Link>)
    requires forall i :: 0 <= i < |links| ==> DomainKey(links[i].netloc).Some?
    ensures Grouped(links).Some?
    ensures var g := Grouped(links).value; var t' := Saved(t, saveDir, links);
      forall i :: 0 <= i < |links| ==> var d := DomainKey(links[i].netloc).value;
        d in g.links && OutputPath(saveDir, d) in t' && t'[OutputPath(saveDir, d)] == File(Output(g.links[d])) &&
        Stored(links[i].url, d) in Ordering.SortedSet(g.links[d])
  {
    GroupedSpec(links);
    var g := Grouped(links).value;
    WrittenFiles(WithSaveDir(t, saveDir), saveDir, g, g.order);
    forall i | 0 <= i < |links|
      ensures var d := DomainKey(links[i].netloc).value; d in g.order && Stored(links[i].url, d) in g.links[d]
    {
      var d := DomainKey(links[i].netloc).value;
      assert FiledAs(links[i], d, Stored(links[i].url, d));
    }
  }

  /** When the grouping succeeds, a path that is no domain's file keeps its entry of the tree with the save directory made. */
  lemma SavedKeeps(t: Tree, saveDir: Path, links: seq<Link>, q: Path)
    requires Grouped(links).Some?
    requires forall i :: 0 <= i < |links| ==> DomainKey(links[i].netloc).Some? && q != OutputPath(saveDir, DomainKey(links[i].netloc).value)
    ensures q in Saved(t, saveDir, links) <==> q in WithSaveDir(t, saveDir)
    ensures q in WithSaveDir(t, saveDir) ==> Saved(t, saveDir, links)[q] == WithSaveDir(t, saveDir)[q]
  {
    GroupedSpec(links);
    var g := Grouped(links).value;
    forall d | d in g.order ensures q != OutputPath(saveDir, d) {
      var i :| 0 <= i < |links| && DomainKey(links[i].netloc) == Some(d);
    }
    WrittenKeeps(WithSaveDir(t, saveDir), saveDir, g, g.order, q);
  }

  /** The grouping loop; `None` stands for the `IndexError` a dotless host raises. */
  method GroupLinks(links: seq<Link>) returns (groups: Option<Groups>)
    ensures groups == Grouped(links)
  {
    var order: seq<string> := [];
    var domainLinks: map<string, set<string>> := map[];
    for i := 0 to |links|
      invariant Grouped(links[..i]) == Some(Groups(order, domainLinks))
    {
      assert links[..i + 1][..i] == links[..i];
      var labels := Split(links[i].netloc, '.');
      if |labels| < 2 {
        assert Grouped(links[..i + 1]) == None;
        GroupedNoneStays(links, i + 1);
        return None;
      }
      var domain := labels[|labels| - 2];
      var link := links[i].url;
      if domain == "arxiv" && Contains(link, "/abs/") {
        link := AbstractToPdfUrl(link);
      }
      if domain in domainLinks {
        domainLinks := domainLinks[domain := domainLinks[domain] + {link}];
      } else {
        order := order + [domain];
        domainLinks := domainLinks[domain := {link}];
      }
    }
    assert links[..|links|] == links;
    return Some(Groups(order, domainLinks));
  }

  /** Once the grouping has failed on a prefix it fails on the whole list. */
  lemma {:induction false} GroupedNoneStays(links: seq<Link>, n: nat)
    requires n <= |links| && Grouped(links[..n]).None?
    ensures Grouped(links).None?
    decreases |links| - n
  {
    if n < |links| {
      assert links[..n + 1][..n] == links[..n];
      GroupedNoneStays(links, n + 1);
    } else {
      assert links[..n] == links;
    }
  }

  /** `extract_and_save_links_by_domain(file_path, save_dir)`, the links of the file given. */
  method ExtractAndSaveLinksByDomain(fs: FileSystem, saveDir: Path, links: seq<Link>)
    modifies fs
    ensures fs.entries == Saved(old(fs.entries), saveDir, links)
  {
    if !fs.Exists(saveDir) {
      fs.MakeDirs(saveDir);
    }
    var groups := GroupLinks(links);
    if groups.None? {
      return;
    }
    var g := groups.value;
    GroupedSpec(links);
    ghost var t0 := fs.entries;
    for i := 0 to |g.order|
      invariant fs.entries == Written(t0, saveDir, g, g.order[..i])
    {
      assert g.order[..i + 1][..i] == g.order[..i];
      var domain := g.order[i];
      fs.Write(saveDir + [domain + ".txt"], Join(Ordering.SortedSet(g.links[domain]), "\n"));
    }
    assert g.order[..|g.order|] == g.order;
  }
}
