/**
 The edge-list reader of the routing page: CSV text with a header line and
 rows `u,v,length`, turned into a symmetric adjacency map. Rows whose length
 does not parse as a number are dropped; parallel edges are kept in arrival
 order.
 */
module Builder {
  import opened Wrappers
  import opened Text
  import opened Graphs

  /** One accepted row: an undirected edge `u`–`v` of length `w`. */
  datatype Link = Link(u: NodeId, v: NodeId, w: real)

  /** What one data line of the edge list amounts to. */
  datatype LineKind =
    | Accepted(link: Link)
    | NaNWeight          // `isNaN(parseFloat(rawDist))`: the row is skipped
    | NoNeighbourField   // no ',' in the line: `rawV` is undefined and `rawV.toString()` throws

  /** Reading the edge list aborts with the `TypeError` raised by a line with no ',' in it. */
  datatype BuildError = MissingNeighbourField

  /** `graph[k] || []`. */
  function Get(g: Graph, k: NodeId): seq<Entry>
  {
    if k in g then g[k] else []
  }

  /**
   The lines after the header: `text.trim().split("\n").slice(1)`. They hold
   no newline, there are none exactly when the trimmed text is one line, and
   with the header line in front they re-join into the trimmed text.
   */
  function DataLines(text: string): (lines: seq<string>)
    ensures forall i :: 0 <= i < |lines| ==> '\n' !in lines[i]
    ensures |lines| == 0 <==> '\n' !in Trim(text)
    ensures exists header :: '\n' !in header && Join([header] + lines, '\n') == Trim(text)
  {
    var parts := Split(Trim(text), '\n');
    HeadAndRest(parts);
    parts[1..]
  }

  /** A non-empty list is its head followed by the rest. */
  lemma HeadAndRest<T>(parts: seq<T>)
    requires |parts| > 0
    ensures parts == [parts[0]] + parts[1..]
  {
  }

  /**
   Classifies one line: split on ',', fields trimmed, the third field handed to
   `parse` (JavaScript `parseFloat`; `None` stands for `NaN`, which is also what
   a missing third field yields).
   */
  function ReadLine(line: string, parse: string -> Option<real>): (k: LineKind)
    ensures k.NoNeighbourField? <==> ',' !in line
    ensures k.Accepted? <==> |Split(line, ',')| >= 3 && parse(Trim(Split(line, ',')[2])).Some?
    ensures k.Accepted? ==>
      && k.link.u == Trim(Split(line, ',')[0])
      && k.link.v == Trim(Split(line, ',')[1])
      && parse(Trim(Split(line, ',')[2])) == Some(k.link.w)
  {
    var fields := Split(line, ',');
    if |fields| < 2 then NoNeighbourField
    else
      var weight := if |fields| > 2 then parse(Trim(fields[2])) else None;
      if weight.None? then NaNWeight
      else Accepted(Link(Trim(fields[0]), Trim(fields[1]), weight.value))
  }

  /** The entries one link contributes to node `k`: `(v, w)` under `u`, then `(u, w)` under `v`. */
  function Contribution(l: Link, k: NodeId): seq<Entry>
  {
    (if l.u == k then [(l.v, l.w)] else []) + (if l.v == k then [(l.u, l.w)] else [])
  }

  /** The reference neighbour list of `k`: every contribution of `links` to `k`, in order. */
  function Incident(links: seq<Link>, k: NodeId): seq<Entry>
  {
    if |links| == 0 then [] else Incident(links[..|links| - 1], k) + Contribution(links[|links| - 1], k)
  }

  /** Every node an accepted link names. */
  function Endpoints(links: seq<Link>): set<NodeId>
  {
    (set i | 0 <= i < |links| :: links[i].u) + (set i | 0 <= i < |links| :: links[i].v)
  }

  /** One pass of the loop body for an accepted row: create missing lists, then push both directions. */
  function AddLink(g: Graph, l: Link): (g': Graph)
    ensures g'.Keys == g.Keys + {l.u, l.v}
    ensures forall k :: k in g' ==> g'[k] == Get(g, k) + Contribution(l, k)
  {
    var g1 := g[l.u := Get(g, l.u) + [(l.v, l.w)]];
    g1[l.v := Get(g1, l.v) + [(l.u, l.w)]]
  }

  /** The graph the loop builds from the accepted links, in order. */
  function LinkGraph(links: seq<Link>): (g: Graph)
    ensures g.Keys == Endpoints(links)
    ensures forall k :: k in g ==> g[k] == Incident(links, k)
  {
    if |links| == 0 then map[]
    else
      var front := links[..|links| - 1];
      var l := links[|links| - 1];
      var g0 := LinkGraph(front);
      var g := AddLink(g0, l);
      EndpointsSnoc(links);
      assert forall k :: k in g ==> g[k] == Incident(links, k) by {
        forall k | k in g ensures g[k] == Incident(links, k) {
          if k !in g0 { IncidentOutside(front, k); }
          assert Get(g0, k) == Incident(front, k);
        }
      }
      g
  }

  /** The endpoints of a list are those of its front plus both ends of its last link. */
  lemma EndpointsSnoc(links: seq<Link>)
    requires |links| > 0
    ensures Endpoints(links) == Endpoints(links[..|links| - 1]) + {links[|links| - 1].u, links[|links| - 1].v}
  {
    var front := links[..|links| - 1];
    assert forall i :: 0 <= i < |front| ==> front[i] == links[i];
  }

  /** A node no link names receives no entry. */
  lemma {:induction false} IncidentOutside(links: seq<Link>, k: NodeId)
    requires k !in Endpoints(links)
    ensures Incident(links, k) == []
    decreases |links|
  {
    if |links| > 0 {
      var front := links[..|links| - 1];
      EndpointsSnoc(links);
      IncidentOutside(front, k);
    }
  }

  /** The kind of every data line, in order. */
  function Classify(lines: seq<string>, parse: string -> Option<real>): (kinds: seq<LineKind>)
    ensures |kinds| == |lines|
    ensures forall i :: 0 <= i < |lines| ==> kinds[i] == ReadLine(lines[i], parse)
  {
    seq(|lines|, i requires 0 <= i < |lines| => ReadLine(lines[i], parse))
  }

  /** The accepted links among `kinds`, in order. */
  function AcceptedLinks(kinds: seq<LineKind>): seq<Link>
  {
    if |kinds| == 0 then []
    else
      var front := AcceptedLinks(kinds[..|kinds| - 1]);
      match kinds[|kinds| - 1]
      case Accepted(l) => front + [l]
      case _ => front
  }

  /** One pass of the loop body: abort on a broken line, skip a `NaN` row, add an accepted one. */
  function Absorb(acc: Result<Graph, BuildError>, kind: LineKind): Result<Graph, BuildError>
  {
    match acc
    case Failure(e) => Failure(e)
    case Success(g) =>
      match kind
      case NoNeighbourField => Failure(MissingNeighbourField)
      case NaNWeight => Success(g)
      case Accepted(l) => Success(AddLink(g, l))
  }

  /** Some line lacks its second field. */
  predicate HasBrokenLine(kinds: seq<LineKind>)
  {
    exists i :: 0 <= i < |kinds| && kinds[i].NoNeighbourField?
  }

  /**
   The builder loop over the classified data lines, as the page runs it, line
   by line. It fails exactly when some line lacks a ',', and otherwise yields
   the graph whose keys are the endpoints of the accepted rows and whose
   neighbour lists are their contributions in arrival order.
   */
  function BuildKinds(kinds: seq<LineKind>): (r: Result<Graph, BuildError>)
    ensures r.Failure? <==> HasBrokenLine(kinds)
    ensures r.Success? ==> r.value == LinkGraph(AcceptedLinks(kinds))
    decreases |kinds|
  {
    if |kinds| == 0 then Success(map[])
    else
      var front := kinds[..|kinds| - 1];
      var last := kinds[|kinds| - 1];
      var r0 := BuildKinds(front);
      BrokenSnoc(kinds);
      assert last.Accepted? ==> AcceptedLinks(kinds) == AcceptedLinks(front) + [last.link];
      assert !last.Accepted? ==> AcceptedLinks(kinds) == AcceptedLinks(front);
      Absorb(r0, last)
  }

  /**
   Reads the whole edge-list text (lines 160-174 of the page). It fails
   exactly when some data line has no ',' in it, and every graph it returns
   is symmetric, hence closed.
   */
  function Build(text: string, parse: string -> Option<real>): (r: Result<Graph, BuildError>)
    ensures r.Failure? <==> exists line :: line in DataLines(text) && ',' !in line
    ensures r.Success? ==> Symmetric(r.value) && Closed(r.value)
  {
    var kinds := Classify(DataLines(text), parse);
    FailsOnBrokenLine(DataLines(text), parse);
    if BuildKinds(kinds).Success? then
      BuildKindsSymmetric(kinds);
      BuildKinds(kinds)
    else
      BuildKinds(kinds)
  }

  /** A list has a broken line when its front has one or its last line is broken. */
  lemma BrokenSnoc(kinds: seq<LineKind>)
    requires |kinds| > 0
    ensures HasBrokenLine(kinds) <==> HasBrokenLine(kinds[..|kinds| - 1]) || kinds[|kinds| - 1].NoNeighbourField?
  {
    var front := kinds[..|kinds| - 1];
    if HasBrokenLine(front) {
      var i :| 0 <= i < |front| && front[i].NoNeighbourField?;
      assert kinds[i] == front[i];
    }
  }

  /** The loop over a list of lines fails exactly when one of them has no ',' in it. */
  lemma FailsOnBrokenLine(lines: seq<string>, parse: string -> Option<real>)
    ensures BuildKinds(Classify(lines, parse)).Failure? <==> exists line :: line in lines && ',' !in line
  {
    var kinds := Classify(lines, parse);
    if HasBrokenLine(kinds) {
      var i :| 0 <= i < |kinds| && kinds[i].NoNeighbourField?;
      assert lines[i] in lines;
    }
    if exists line :: line in lines && ',' !in line {
      var line :| line in lines && ',' !in line;
      var i :| 0 <= i < |lines| && lines[i] == line;
      assert kinds[i].NoNeighbourField?;
    }
  }

  /** Each accepted row puts `(v, w)` under `u` and `(u, w)` under `v`. */
  lemma AcceptedRowIsMirrored(kinds: seq<LineKind>, i: nat)
    requires BuildKinds(kinds).Success?
    requires i < |kinds| && kinds[i].Accepted?
    ensures var g := BuildKinds(kinds).value;
            var l := kinds[i].link;
            HasEntry(g, l.u, l.v, l.w) && HasEntry(g, l.v, l.u, l.w)
  {
    var links := AcceptedLinks(kinds);
    var l := kinds[i].link;
    var j := AcceptedIndex(kinds, i);
    var g := LinkGraph(links);
    assert l.u in Endpoints(links) && l.v in Endpoints(links);
    IncidentHas(links, j, l.u);
    IncidentHas(links, j, l.v);
    assert (l.v, l.w) in Contribution(l, l.u);
    assert (l.u, l.w) in Contribution(l, l.v);
  }

  /** The position among the accepted links of the link an accepted line yields. */
  lemma {:induction false} AcceptedIndex(kinds: seq<LineKind>, i: nat) returns (j: nat)
    requires i < |kinds| && kinds[i].Accepted?
    ensures j < |AcceptedLinks(kinds)| && AcceptedLinks(kinds)[j] == kinds[i].link
    decreases |kinds|
  {
    var front := kinds[..|kinds| - 1];
    var links := AcceptedLinks(kinds);
    if i == |kinds| - 1 {
      j := |links| - 1;
    } else {
      assert front[i] == kinds[i];
      j := AcceptedIndex(front, i);
      if kinds[|kinds| - 1].Accepted? {
        assert links == AcceptedLinks(front) + [kinds[|kinds| - 1].link];
      }
    }
  }

  /** Link `j` contributes its entries to both endpoints' reference lists. */
  lemma {:induction false} IncidentHas(links: seq<Link>, j: nat, k: NodeId)
    requires j < |links|
    ensures forall e :: e in Contribution(links[j], k) ==> e in Incident(links, k)
    decreases |links|
  {
    var front := links[..|links| - 1];
    if j < |links| - 1 {
      assert front[j] == links[j];
      IncidentHas(front, j, k);
    }
  }

  /** The builder only appends: each link adds to the end of existing lists and never alters them. */
  lemma AddLinkAppends(g: Graph, l: Link, k: NodeId)
    requires k in g
    ensures k in AddLink(g, l) && g[k] <= AddLink(g, l)[k]
  {
  }

  /** Adding a link to a symmetric graph keeps it symmetric. */
  lemma AddLinkSymmetric(g: Graph, l: Link)
    requires Symmetric(g)
    ensures Symmetric(AddLink(g, l))
  {
    var g' := AddLink(g, l);
    forall u: NodeId, e: Entry | u in g' && e in g'[u]
      ensures HasEntry(g', e.0, u, e.1)
    {
      if e in Get(g, u) {
        assert HasEntry(g, e.0, u, e.1);
        assert (u, e.1) in g'[e.0] by {
          assert g'[e.0] == g[e.0] + Contribution(l, e.0);
        }
      } else {
        assert e in Contribution(l, u);
        assert g'[e.0] == Get(g, e.0) + Contribution(l, e.0);
      }
    }
  }

  /** Every graph the builder returns is symmetric, and therefore closed. */
  lemma {:induction false} BuildKindsSymmetric(kinds: seq<LineKind>)
    requires BuildKinds(kinds).Success?
    ensures Symmetric(BuildKinds(kinds).value)
    ensures Closed(BuildKinds(kinds).value)
    decreases |kinds|
  {
    if |kinds| > 0 {
      var front := kinds[..|kinds| - 1];
      BuildKindsSymmetric(front);
      if kinds[|kinds| - 1].Accepted? {
        AddLinkSymmetric(BuildKinds(front).value, kinds[|kinds| - 1].link);
      }
    }
    SymmetricIsClosed(BuildKinds(kinds).value);
  }

  /** A row whose length is `NaN` changes nothing, wherever it stands. */
  lemma NaNRowIgnored(a: seq<LineKind>, b: seq<LineKind>)
    ensures BuildKinds(a + [NaNWeight] + b) == BuildKinds(a + b)
  {
    var s := a + [NaNWeight] + b;
    var t := a + b;
    NaNRowKeepsLinks(a, b);
    assert HasBrokenLine(s) <==> HasBrokenLine(t) by {
      if HasBrokenLine(s) {
        var i :| 0 <= i < |s| && s[i].NoNeighbourField?;
        if i < |a| { assert t[i] == s[i]; } else { assert t[i - 1] == s[i]; }
      }
      if HasBrokenLine(t) {
        var i :| 0 <= i < |t| && t[i].NoNeighbourField?;
        if i < |a| { assert s[i] == t[i]; } else { assert s[i + 1] == t[i]; }
      }
    }
    if HasBrokenLine(s) {
      assert BuildKinds(s).error == MissingNeighbourField == BuildKinds(t).error;
    } else {
      assert BuildKinds(s).value == LinkGraph(AcceptedLinks(t)) == BuildKinds(t).value;
    }
  }

  /** A `NaN` row contributes no accepted link, wherever it stands. */
  lemma {:induction false} NaNRowKeepsLinks(a: seq<LineKind>, b: seq<LineKind>)
    ensures AcceptedLinks(a + [NaNWeight] + b) == AcceptedLinks(a + b)
    decreases |b|
  {
    var s := a + [NaNWeight] + b;
    var t := a + b;
    if |b| == 0 {
      assert s[..|s| - 1] == a && t == a;
    } else {
      var b' := b[..|b| - 1];
      NaNRowKeepsLinks(a, b');
      assert s[..|s| - 1] == a + [NaNWeight] + b' && s[|s| - 1] == b[|b| - 1];
      assert t[..|t| - 1] == a + b' && t[|t| - 1] == b[|b| - 1];
    }
  }

  /**
   The header line never contributes: two texts whose first lines differ (each
   holding some non-white character) build the same graph.
   */
  lemma HeaderIgnored(h1: string, h2: string, rest: string, parse: string -> Option<real>)
    requires '\n' !in h1 && '\n' !in h2
    requires !AllWhite(h1) && !AllWhite(h2)
    ensures Build(h1 + "\n" + rest, parse) == Build(h2 + "\n" + rest, parse)
  {
    HeaderDropped(h1, rest);
    HeaderDropped(h2, rest);
  }

  /** A first line holding some non-white character is exactly the dropped one. */
  lemma HeaderDropped(h: string, rest: string)
    requires '\n' !in h && !AllWhite(h)
    ensures DataLines(h + "\n" + rest) == if AllWhite(rest) then [] else Split(TrimEnd(rest), '\n')
  {
    var s := h + "\n" + rest;
    var h' := TrimStart(h);
    HeaderTrimmedStart(h, rest);
    assert Trim(s) == TrimEnd(h' + "\n" + rest);
    TrimmedHeaderDropped(h', rest);
  }

  /** Trimming the front of the text only trims the front of its first line. */
  lemma HeaderTrimmedStart(h: string, rest: string)
    requires '\n' !in h && !AllWhite(h)
    ensures TrimStart(h + "\n" + rest) == TrimStart(h) + "\n" + rest
    ensures '\n' !in TrimStart(h) && |TrimStart(h)| > 0 && !IsWhite(TrimStart(h)[0])
  {
    FirstLineTrimmedStart(h, rest);
    TrimStartOfContent(h);
    SuffixKeepsOut(h, TrimStart(h), '\n');
  }

  /** `trimStart` of the text stops inside a first line with some non-white character. */
  lemma FirstLineTrimmedStart(h: string, rest: string)
    requires !AllWhite(h)
    ensures TrimStart(h + "\n" + rest) == TrimStart(h) + "\n" + rest
  {
    var tail := "\n" + rest;
    assert h + "\n" + rest == h + tail;
    TrimStartKeepsTail(h, tail);
    assert TrimStart(h) + tail == TrimStart(h) + "\n" + rest;
  }

  /** A suffix of a text without `c` has no `c` either. */
  lemma SuffixKeepsOut(s: string, r: string, c: char)
    requires c !in s && |r| <= |s| && r == s[|s| - |r|..]
    ensures c !in r
  {
    forall k | 0 <= k < |r| ensures r[k] != c {
      assert r[k] == s[|s| - |r| + k];
    }
  }

  /** Once leading white space is gone, the trimmed text's first line is `h`. */
  lemma TrimmedHeaderDropped(h: string, rest: string)
    requires '\n' !in h && |h| > 0 && !IsWhite(h[0])
    ensures Split(TrimEnd(h + "\n" + rest), '\n')[1..] == if AllWhite(rest) then [] else Split(TrimEnd(rest), '\n')
  {
    var s := h + "\n" + rest;
    if AllWhite(rest) {
      WhiteTailTrimmed(h, rest);
    } else {
      TrimEndKeepsHead(h + "\n", rest);
      assert s == (h + "\n") + rest;
      assert (h + "\n") + TrimEnd(rest) == h + ['\n'] + TrimEnd(rest);
      SplitAfterPiece(h, TrimEnd(rest), '\n');
    }
  }

  /** A header followed only by white space leaves no data line. */
  lemma WhiteTailTrimmed(h: string, rest: string)
    requires '\n' !in h && AllWhite(rest)
    ensures Split(TrimEnd(h + "\n" + rest), '\n')[1..] == []
  {
    var tail := "\n" + rest;
    assert AllWhite(tail) by {
      forall k | 0 <= k < |tail| ensures IsWhite(tail[k]) {
        if k > 0 { assert tail[k] == rest[k - 1]; }
      }
    }
    assert h + "\n" + rest == h + tail;
    TrimEndDropsWhiteTail(h, tail);
    var t := TrimEnd(h);
    assert '\n' !in t by {
      forall k | 0 <= k < |t| ensures t[k] != '\n' { assert t[k] == h[k]; }
    }
    SplitSeparatorFree(t, '\n');
  }
}
