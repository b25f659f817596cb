/** The splicing of markup fragments into a page, placeholder by placeholder. */
module Fragments {
  import opened Wrappers

  type Name = string

  /** A page as its pieces of plain markup and its `<!--SPA:name-->` placeholders. */
  datatype Part = Text(markup: string) | Ref(name: Name)

  type Page = seq<Part>

  type Library = map<Name, Page>

  datatype SpliceError = Unmatched(left: seq<Name>) | Unused(names: set<Name>)

  // ----- which names a page leads to

  ghost predicate Links(frags: Library, from: Name, to: Name) {
    from in frags && Ref(to) in frags[from]
  }

  /** A chain of references: the first name is in the page, each next one in the fragment before it. */
  ghost predicate Path(frags: Library, page: Page, p: seq<Name>) {
    && |p| > 0
    && Ref(p[0]) in page
    && forall i, j :: 0 <= i && j == i + 1 && j < |p| ==> Links(frags, p[i], p[j])
  }

  ghost predicate Reaches(frags: Library, page: Page, n: Name) {
    exists p :: Path(frags, page, p) && p[|p| - 1] == n
  }

  /** Some fragment leads back to itself. */
  ghost predicate Cyclic(frags: Library, page: Page) {
    exists p, i, j :: Path(frags, page, p) && 0 <= i < j < |p| && p[i] == p[j]
  }

  ghost predicate Sound(frags: Library, page: Page) {
    (forall n :: Reaches(frags, page, n) ==> n in frags) && !Cyclic(frags, page)
  }

  /** All chains of references end, in known fragments, after at most `k` names. */
  ghost predicate Fits(frags: Library, page: Page, k: nat)
    decreases k
  {
    forall n :: Ref(n) in page ==> n in frags && k > 0 && Fits(frags, frags[n], k - 1)
  }

  // ----- the expansion

  /** Every placeholder replaced by the expansion of its fragment. */
  ghost function Expand(frags: Library, page: Page, k: nat): (whole: Page)
    requires Fits(frags, page, k)
    ensures Plain(whole)
    decreases k, |page|
  {
    if page == [] then [] else
    ExpandPart(frags, page[0], k) + Expand(frags, page[1..], k)
  }

  ghost function ExpandPart(frags: Library, part: Part, k: nat): (whole: Page)
    requires Fits(frags, [part], k)
    ensures Plain(whole)
    decreases k, 0
  {
    if part.Text? then [part] else
    assert part in [part];
    Expand(frags, frags[part.name], k - 1)
  }

  predicate Plain(page: Page) {
    forall part :: part in page ==> part.Text?
  }

  lemma {:induction false} ExpandAppend(frags: Library, a: Page, b: Page, k: nat)
    requires Fits(frags, a, k) && Fits(frags, b, k)
    ensures Fits(frags, a + b, k)
    ensures Expand(frags, a + b, k) == Expand(frags, a, k) + Expand(frags, b, k)
  {
    if a == [] {
      assert a + b == b;
    } else {
      ExpandAppend(frags, a[1..], b, k);
      assert (a + b)[1..] == a[1..] + b;
    }
  }

  lemma {:induction false} MoreLevels(frags: Library, page: Page, k: nat, l: nat)
    requires Fits(frags, page, k) && k <= l
    ensures Fits(frags, page, l) && Expand(frags, page, k) == Expand(frags, page, l)
    decreases k, |page|
  {
    FitsMore(frags, page, k, l);
    if page != [] {
      PartMore(frags, page[0], k, l);
      MoreLevels(frags, page[1..], k, l);
    }
  }

  lemma PartMore(frags: Library, part: Part, k: nat, l: nat)
    requires Fits(frags, [part], k) && k <= l
    ensures Fits(frags, [part], l) && ExpandPart(frags, part, k) == ExpandPart(frags, part, l)
    decreases k, 0
  {
    hide Expand;
    FitsMore(frags, [part], k, l);
    if part.Ref? {
      assert part in [part];
      MoreLevels(frags, frags[part.name], k - 1, l - 1);
    }
  }

  lemma {:induction false} FitsMore(frags: Library, page: Page, k: nat, l: nat)
    requires Fits(frags, page, k) && k <= l
    ensures Fits(frags, page, l)
    decreases k
  {
    forall n | Ref(n) in page ensures n in frags && l > 0 && Fits(frags, frags[n], l - 1) {
      FitsMore(frags, frags[n], k - 1, l - 1);
    }
  }

  // ----- one replacement

  /** `html.replace(token, content)`. */
  function Replace(page: Page, n: Name, content: Page): (r: Page)
    ensures forall part :: part in r <==> (part in page && part != Ref(n)) || (Ref(n) in page && part in content)
  {
    if page == [] then [] else
    (if page[0] == Ref(n) then content else [page[0]]) + Replace(page[1..], n, content)
  }

  lemma {:induction false} ReplaceExpands(frags: Library, page: Page, n: Name, k: nat)
    requires n in frags && Fits(frags, page, k)
    ensures Fits(frags, Replace(page, n, frags[n]), k)
    ensures Expand(frags, Replace(page, n, frags[n]), k) == Expand(frags, page, k)
    decreases |page|
  {
    if page != [] {
      var head := if page[0] == Ref(n) then frags[n] else [page[0]];
      assert page[0] in page;
      ReplaceExpands(frags, page[1..], n, k);
      if page[0] == Ref(n) {
        MoreLevels(frags, frags[n], k - 1, k);
        assert page[0] in [page[0]];
      }
      assert [page[0]][1..] == [];
      ExpandAppend(frags, head, Replace(page[1..], n, frags[n]), k);
    }
  }

  lemma UnreplaceFits(frags: Library, page: Page, n: Name, k: nat)
    requires n in frags && Fits(frags, Replace(page, n, frags[n]), k)
    ensures Fits(frags, page, k + 1)
  {
    forall m | Ref(m) in page ensures m in frags && Fits(frags, frags[m], k) {
      if m == n {
        FitsFewer(frags, Replace(page, n, frags[n]), frags[n], k);
      } else {
        FitsMore(frags, frags[m], k - 1, k);
      }
    }
  }

  lemma FitsFewer(frags: Library, page: Page, less: Page, k: nat)
    requires Fits(frags, page, k) && forall part :: part in less ==> part in page
    ensures Fits(frags, less, k)
  {
  }

  // ----- chains

  lemma {:induction false} FitsPath(frags: Library, page: Page, p: seq<Name>, k: nat)
    requires Fits(frags, page, k) && Path(frags, page, p)
    ensures |p| <= k && forall n :: n in p ==> n in frags
    decreases k
  {
    assert Ref(p[0]) in page;
    if |p| > 1 {
      PathTail(frags, page, p);
      FitsPath(frags, frags[p[0]], p[1..], k - 1);
      assert p == [p[0]] + p[1..];
    }
  }

  lemma PathTail(frags: Library, page: Page, p: seq<Name>)
    requires Path(frags, page, p) && |p| > 1
    ensures p[0] in frags && Path(frags, frags[p[0]], p[1..])
  {
    assert Links(frags, p[0], p[1]);
    var q := p[1..];
    forall i, j | 0 <= i && j == i + 1 && j < |q| ensures Links(frags, q[i], q[j]) {
      assert Links(frags, p[i + 1], p[j + 1]);
    }
  }

  lemma PathCons(frags: Library, page: Page, n: Name, q: seq<Name>)
    requires Ref(n) in page && n in frags && Path(frags, frags[n], q)
    ensures Path(frags, page, [n] + q)
  {
    var p := [n] + q;
    forall i, j | 0 <= i && j == i + 1 && j < |p| ensures Links(frags, p[i], p[j]) {
      if i > 0 {
        assert Links(frags, q[i - 1], q[j - 1]);
      }
    }
  }

  /** A chain with a cycle in it can be made longer. */
  lemma Pump(frags: Library, page: Page, p: seq<Name>, i: nat, j: nat)
    requires Path(frags, page, p) && i < j < |p| && p[i] == p[j]
    ensures Path(frags, page, p[..j] + p[i..])
  {
    var q := p[..j] + p[i..];
    forall k, l | 0 <= k && l == k + 1 && l < |q| ensures Links(frags, q[k], q[l]) {
      if l < j {
        assert Links(frags, p[k], p[l]);
      } else if l == j {
        assert Links(frags, p[k], p[l]);
      } else {
        assert Links(frags, p[i + (k - j)], p[i + (l - j)]);
      }
    }
  }

  lemma {:induction false} NoCycle(frags: Library, page: Page, k: nat, p: seq<Name>, i: nat, j: nat)
    requires Fits(frags, page, k) && Path(frags, page, p) && i < j < |p| && p[i] == p[j]
    ensures false
    decreases k - |p|
  {
    FitsPath(frags, page, p, k);
    Pump(frags, page, p, i, j);
    var q := p[..j] + p[i..];
    FitsPath(frags, page, q, k);
    NoCycle(frags, page, k, q, i, j);
  }

  lemma FitsIsSound(frags: Library, page: Page, k: nat)
    requires Fits(frags, page, k)
    ensures Sound(frags, page)
  {
    hide Fits;
    forall n | Reaches(frags, page, n) ensures n in frags {
      var p :| Path(frags, page, p) && p[|p| - 1] == n;
      FitsPath(frags, page, p, k);
    }
    if Cyclic(frags, page) {
      var p, i, j :| Path(frags, page, p) && 0 <= i < j < |p| && p[i] == p[j];
      NoCycle(frags, page, k, p, i, j);
    }
  }

  /** Where the chains do not end in time, one leads to an unknown name or is longer than `k`. */
  lemma {:induction false} LongPath(frags: Library, page: Page, k: nat) returns (p: seq<Name>)
    requires !Fits(frags, page, k)
    ensures Path(frags, page, p) && (p[|p| - 1] !in frags || |p| == k + 1)
    decreases k
  {
    var n :| Ref(n) in page && !(n in frags && k > 0 && Fits(frags, frags[n], k - 1));
    if n !in frags || k == 0 {
      p := [n];
    } else {
      var q := LongPath(frags, frags[n], k - 1);
      PathCons(frags, page, n, q);
      p := [n] + q;
    }
  }

  lemma PathPrefix(frags: Library, page: Page, p: seq<Name>, i: nat)
    requires Path(frags, page, p) && i < |p|
    ensures Reaches(frags, page, p[i])
  {
    assert Path(frags, page, p[..i + 1]) && p[..i + 1][i] == p[i];
  }

  /** More names than the set has: one comes twice. */
  lemma {:induction false} Pigeonhole(p: seq<Name>, names: set<Name>) returns (i: nat, j: nat)
    requires |p| > |names| && forall n :: n in p ==> n in names
    ensures i < j < |p| && p[i] == p[j]
    decreases |p|
  {
    var last := p[|p| - 1];
    var rest := p[..|p| - 1];
    if last in rest {
      i :| 0 <= i < |rest| && rest[i] == last;
      j := |p| - 1;
    } else {
      assert last in p;
      assert |names - {last}| == |names| - 1;
      forall n | n in rest ensures n in names - {last} {
        assert n in p;
      }
      i, j := Pigeonhole(rest, names - {last});
    }
  }

  lemma CycleFound(frags: Library, page: Page, p: seq<Name>, i: nat, j: nat)
    requires Path(frags, page, p) && i < j < |p| && p[i] == p[j]
    ensures Cyclic(frags, page)
  {
  }

  /** A page can be spliced exactly when no chain of references leaves the fragments or runs in a circle; then
      no chain has more names than there are fragments. */
  lemma SoundIffFits(frags: Library, page: Page)
    ensures Sound(frags, page) <==> Fits(frags, page, |frags|)
  {
    hide Fits;
    if Fits(frags, page, |frags|) {
      FitsIsSound(frags, page, |frags|);
    } else if Sound(frags, page) {
      var p := LongPath(frags, page, |frags|);
      forall n | n in p ensures n in frags.Keys {
        var i :| 0 <= i < |p| && p[i] == n;
        PathPrefix(frags, page, p, i);
      }
      assert p[|p| - 1] in p;
      assert |frags.Keys| == |frags|;
      var i, j := Pigeonhole(p, frags.Keys);
      CycleFound(frags, page, p, i, j);
    }
  }

  // ----- which fragments get used

  /** What a page leads to, it still leads to after a replacement, save the name that was replaced. */
  lemma ReachesAfter(frags: Library, page: Page, n: Name, m: Name)
    requires n in frags && Reaches(frags, page, m)
    ensures m == n || Reaches(frags, Replace(page, n, frags[n]), m)
  {
    var after := Replace(page, n, frags[n]);
    var p :| Path(frags, page, p) && p[|p| - 1] == m;
    if p[0] != n {
      assert Path(frags, after, p);
    } else if |p| > 1 {
      PathTail(frags, page, p);
      assert Path(frags, after, p[1..]);
    }
  }

  /** A replacement leads to nothing new. */
  lemma ReachesBefore(frags: Library, page: Page, n: Name, m: Name)
    requires n in frags && Reaches(frags, Replace(page, n, frags[n]), m)
    ensures Reaches(frags, page, m)
  {
    var p :| Path(frags, Replace(page, n, frags[n]), p) && p[|p| - 1] == m;
    if Ref(p[0]) in page {
      assert Path(frags, page, p);
    } else {
      assert Path(frags, frags[n], p);
      PathCons(frags, page, n, p);
      assert ([n] + p)[|p|] == m;
    }
  }

  lemma Direct(frags: Library, page: Page, n: Name)
    requires Ref(n) in page
    ensures Reaches(frags, page, n)
  {
    assert Path(frags, page, [n]) && [n][0] == n;
  }

  // ----- the splice

  function Refs(page: Page): (names: seq<Name>)
    ensures forall n :: n in names <==> Ref(n) in page
  {
    if page == [] then [] else
    (if page[0].Ref? then [page[0].name] else []) + Refs(page[1..])
  }

  ghost predicate Iterates(order: seq<Name>, frags: Library) {
    && (forall n :: n in order <==> n in frags)
    && (forall i, j :: 0 <= i < j < |order| ==> order[i] != order[j])
  }

  /** Any token of a fragment left. */
  predicate Pending(html: Page, frags: Library) {
    exists n :: n in frags && Ref(n) in html
  }

  /** What the pages of one run have in common. */
  ghost predicate Same(frags: Library, shell: Page, html: Page, used: set<Name>) {
    && (forall k: nat :: Fits(frags, shell, k) ==>
         Fits(frags, html, k) && Expand(frags, html, k) == Expand(frags, shell, k))
    && (forall k: nat :: Fits(frags, html, k) ==> exists l: nat :: Fits(frags, shell, l))
    && (forall n :: Reaches(frags, shell, n) ==> n in used || Reaches(frags, html, n))
    && (forall n :: n in used || Reaches(frags, html, n) ==> Reaches(frags, shell, n))
  }

  lemma SameAfter(frags: Library, shell: Page, html: Page, used: set<Name>, n: Name)
    requires Same(frags, shell, html, used) && n in frags && Ref(n) in html
    ensures Same(frags, shell, Replace(html, n, frags[n]), used + {n})
  {
    hide Fits, Expand, Reaches;
    var after := Replace(html, n, frags[n]);
    forall k: nat | Fits(frags, shell, k)
      ensures Fits(frags, after, k) && Expand(frags, after, k) == Expand(frags, shell, k)
    {
      ReplaceExpands(frags, html, n, k);
    }
    forall k: nat | Fits(frags, after, k) ensures exists l: nat :: Fits(frags, shell, l) {
      UnreplaceFits(frags, html, n, k);
    }
    forall m | Reaches(frags, shell, m) ensures m in used + {n} || Reaches(frags, after, m) {
      if m !in used { ReachesAfter(frags, html, n, m); }
    }
    forall m | m in used + {n} || Reaches(frags, after, m) ensures Reaches(frags, shell, m) {
      if m == n {
        Direct(frags, html, n);
      } else if m !in used {
        ReachesBefore(frags, html, n, m);
      }
    }
  }

  ghost predicate Level(frags: Library, n: Name, k: nat) {
    n in frags && k > 0 && Fits(frags, frags[n], k - 1)
  }

  /** In a round, what is left is a level lower, or its turn comes later in the round. */
  ghost predicate InRound(frags: Library, html: Page, later: seq<Name>, k: nat) {
    forall m :: Ref(m) in html ==> Level(frags, m, k) || (m in later && Level(frags, m, k + 1))
  }

  lemma RoundStarts(frags: Library, html: Page, order: seq<Name>, k: nat)
    requires Iterates(order, frags) && Fits(frags, html, k + 1)
    ensures InRound(frags, html, order, k)
  {
  }

  lemma RoundStep(frags: Library, html: Page, n: Name, later: seq<Name>, k: nat)
    requires n in frags && InRound(frags, html, [n] + later, k)
    ensures Ref(n) !in html ==> InRound(frags, html, later, k)
    ensures InRound(frags, Replace(html, n, frags[n]), later, k)
  {
    var after := Replace(html, n, frags[n]);
    forall m | Ref(m) in after ensures Level(frags, m, k) || (m in later && Level(frags, m, k + 1)) {
      if Ref(m) !in html || m == n {
        assert Ref(n) in html;
        if Level(frags, n, k) { FitsMore(frags, frags[n], k - 1, k); }
      }
    }
  }

  lemma RoundEnds(frags: Library, html: Page, k: nat)
    requires InRound(frags, html, [], k)
    ensures Fits(frags, html, k)
  {
  }

  lemma {:induction false} PlainExpands(frags: Library, html: Page, k: nat)
    requires Plain(html) && Fits(frags, html, k)
    ensures Expand(frags, html, k) == html
  {
    if html != [] {
      PlainExpands(frags, html[1..], k);
    }
  }

  /** One turn of the outer loop: each fragment in turn. */
  method Round(shell: Page, frags: Library, order: seq<Name>, html0: Page, used0: set<Name>)
    returns (html: Page, used: set<Name>)
    requires Iterates(order, frags) && Same(frags, shell, html0, used0)
    ensures Same(frags, shell, html, used)
    ensures forall k: nat, l: nat :: k < l <= k + 1 && Fits(frags, html0, l) ==> Fits(frags, html, k)
  {
    hide Fits, Same, InRound;
    html, used := html0, used0;
    forall k: nat | Fits(frags, html0, k + 1) ensures InRound(frags, html, order, k) {
      RoundStarts(frags, html, order, k);
    }
    for i := 0 to |order|
      invariant Same(frags, shell, html, used)
      invariant forall k: nat :: Fits(frags, html0, k + 1) ==> InRound(frags, html, order[i..], k)
    {
      var n := order[i];
      ghost var later := order[i + 1..];
      assert order[i..] == [n] + later;
      forall k: nat | Fits(frags, html0, k + 1)
        ensures Ref(n) !in html ==> InRound(frags, html, later, k)
        ensures InRound(frags, Replace(html, n, frags[n]), later, k)
      {
        RoundStep(frags, html, n, later, k);
      }
      if Ref(n) in html {
        SameAfter(frags, shell, html, used, n);
        html := Replace(html, n, frags[n]);
        used := used + {n};
      }
    }
    assert order[|order|..] == [];
    forall k: nat | Fits(frags, html0, k + 1) ensures Fits(frags, html, k) {
      RoundEnds(frags, html, k);
    }
  }

  /** The splice loop and its two guards. `order` is the order in which the dictionary is iterated. */
  method Embed(shell: Page, frags: Library, order: seq<Name>) returns (r: Result<Page, SpliceError>, rounds: nat)
    requires Iterates(order, frags)
    ensures frags == map[] ==> r == Success(shell)
    ensures frags != map[] ==>
      match r
      case Success(page) =>
        && Sound(frags, shell)
        && (forall n :: n in frags ==> Reaches(frags, shell, n))
        && Fits(frags, shell, |frags|) && page == Expand(frags, shell, |frags|)
      case Failure(Unmatched(left)) =>
        !Sound(frags, shell) && left != [] && forall n :: n in left ==> Reaches(frags, shell, n)
      case Failure(Unused(names)) =>
        && Sound(frags, shell)
        && names != {} && (forall n :: n in names <==> n in frags && !Reaches(frags, shell, n))
    ensures r.Success? ==> (Plain(r.value) <==> frags != map[] || Plain(shell))
    ensures Sound(frags, shell) ==> rounds <= |frags|
  {
    hide Fits, Sound, Same, Expand, Reaches;
    rounds := 0;
    if order == [] {
      NoFragments(order, frags);
      return Success(shell), 0;
    }
    assert frags != map[] by { assert order[0] in order; }
    var html, used := shell, {};
    SoundIffFits(frags, shell);
    SameStart(frags, shell);
    while rounds < |frags| + 1 && Pending(html, frags)
      invariant rounds <= |frags| + 1 && Same(frags, shell, html, used)
      invariant Sound(frags, shell) ==> rounds <= |frags| && Fits(frags, html, |frags| - rounds)
    {
      if Sound(frags, shell) && rounds == |frags| { NotPending(frags, html); }
      html, used := Round(shell, frags, order, html, used);
      rounds := rounds + 1;
    }
    var left := Refs(html);
    if left != [] {
      if Sound(frags, shell) { NothingLeft(frags, html, |frags| - rounds); }
      LeftIsReached(frags, shell, html, used);
      return Failure(Unmatched(left)), rounds;
    }
    PlainIsDone(frags, shell, html, used);
    var unused := frags.Keys - used;
    if unused != {} {
      return Failure(Unused(unused)), rounds;
    }
    return Success(html), rounds;
  }

  lemma NoFragments(order: seq<Name>, frags: Library)
    requires Iterates(order, frags) && order == []
    ensures frags == map[]
  {
    assert forall n :: n in frags ==> n in order;
  }

  lemma SameStart(frags: Library, shell: Page)
    ensures Same(frags, shell, shell, {})
  {
  }

  lemma NotPending(frags: Library, html: Page)
    requires Fits(frags, html, 0)
    ensures !Pending(html, frags)
  {
  }

  /** Where every chain ends, no placeholder is left that is not a fragment's. */
  lemma NothingLeft(frags: Library, html: Page, k: nat)
    requires Fits(frags, html, k) && !Pending(html, frags)
    ensures Refs(html) == []
  {
    if Refs(html) != [] {
      assert Refs(html)[0] in Refs(html);
    }
  }

  lemma LeftIsReached(frags: Library, shell: Page, html: Page, used: set<Name>)
    requires Same(frags, shell, html, used)
    ensures forall n :: n in Refs(html) ==> Reaches(frags, shell, n)
  {
    hide Reaches;
    forall n | n in Refs(html) ensures Reaches(frags, shell, n) { Direct(frags, html, n); }
  }

  lemma PlainIsDone(frags: Library, shell: Page, html: Page, used: set<Name>)
    requires Same(frags, shell, html, used) && Refs(html) == []
    ensures Sound(frags, shell) && Plain(html)
    ensures Fits(frags, shell, |frags|) && html == Expand(frags, shell, |frags|)
    ensures forall n :: n in used <==> Reaches(frags, shell, n)
  {
    forall n ensures Ref(n) !in html {
      assert n !in Refs(html);
    }
    assert Fits(frags, html, 0);
    var l: nat :| Fits(frags, shell, l);
    FitsIsSound(frags, shell, l);
    SoundIffFits(frags, shell);
    forall n | Reaches(frags, shell, n) ensures n in used {
      NowhereToGo(frags, html, n);
    }
    NoRefs(html);
    PlainExpands(frags, html, |frags|);
  }

  lemma {:induction false} NoRefs(html: Page)
    requires Refs(html) == []
    ensures Plain(html)
  {
    if html != [] { NoRefs(html[1..]); }
  }

  lemma NowhereToGo(frags: Library, html: Page, n: Name)
    requires forall m :: Ref(m) !in html
    ensures !Reaches(frags, html, n)
  {
  }

  /** Without fragment files nothing is checked: what is delivered is sound exactly when it has no placeholder. */
  lemma UncheckedWithoutFragments(page: Page)
    ensures Sound(map[], page) <==> Plain(page)
  {
    if part :| part in page && part.Ref? {
      Direct(map[], page, part.name);
    } else {
      forall n ensures Ref(n) !in page {}
    }
  }
}
