/** The breadcrumb trail: route changes trim or push, crumb clicks trim, a flag starts it afresh. */
module DrilldownTrail {
  import opened Collections

  datatype Crumb = Crumb(title: string, href: string)

  /** `href.split('?')[0]`. */
  function Pathname(href: string): string {
    if href == "" || href[0] == '?' then "" else [href[0]] + Pathname(href[1..])
  }

  /** A router location: the search part is empty or starts with the first question mark. */
  predicate IsLocation(pathname: string, search: string) {
    '?' !in pathname && (search == "" || search[0] == '?')
  }

  lemma {:induction false} PathnameOfLocation(pathname: string, search: string)
    requires IsLocation(pathname, search)
    ensures Pathname(pathname + search) == pathname
  {
    if pathname == "" {
      assert pathname + search == search;
    } else {
      assert (pathname + search)[1..] == pathname[1..] + search;
      PathnameOfLocation(pathname[1..], search);
    }
  }

  /** No segment is left after splitting at slashes. */
  predicate IsRoot(pathname: string) { forall i :: 0 <= i < |pathname| ==> pathname[i] == '/' }

  /** The first crumb on a page. */
  function FindCrumb(crumbs: seq<Crumb>, pathname: string, from: nat := 0): (i: Option<nat>)
    ensures match i
            case Some(k) =>
              && from <= k < |crumbs| && Pathname(crumbs[k].href) == pathname
              && forall j :: from <= j < k ==> Pathname(crumbs[j].href) != pathname
            case None => forall k :: from <= k < |crumbs| ==> Pathname(crumbs[k].href) != pathname
    decreases |crumbs| - from
  {
    if from >= |crumbs| then None
    else if Pathname(crumbs[from].href) == pathname then Some(from)
    else FindCrumb(crumbs, pathname, from + 1)
  }

  /** Back to crumb `i`, which takes the new address and keeps its title. */
  function Trim(crumbs: seq<Crumb>, i: nat, href: string): seq<Crumb>
    requires i < |crumbs|
  {
    crumbs[..i] + [crumbs[i].(href := href)]
  }

  /** The last eight. */
  function Cap(crumbs: seq<Crumb>): seq<Crumb> {
    if |crumbs| > 8 then crumbs[|crumbs| - 8..] else crumbs
  }

  datatype Trail = Trail(crumbs: seq<Crumb>, resetFlag: bool)

  datatype Event =
    | RouteChange(pathname: string, search: string)
    | NavigateTo(href: string, given: Option<string>)
    | ResetTrail
    | SetCurrentLabel(title: string)

  predicate ValidEvent(e: Event) { e.RouteChange? ==> IsLocation(e.pathname, e.search) }

  function Visit(crumbs: seq<Crumb>, pathname: string, search: string, labelFor: string -> string): seq<Crumb> {
    var here := Crumb(labelFor(pathname), pathname + search);
    match FindCrumb(crumbs, pathname)
    case Some(i) => Trim(crumbs, i, pathname + search)
    case None => if IsRoot(pathname) || crumbs == [] then [here] else Cap(crumbs + [here])
  }

  function Step(t: Trail, e: Event, labelFor: string -> string): Trail {
    match e
    case RouteChange(pathname, search) =>
      if t.resetFlag then Trail([Crumb(labelFor(pathname), pathname + search)], false)
      else t.(crumbs := Visit(t.crumbs, pathname, search, labelFor))
    case NavigateTo(href, given) =>
      t.(crumbs := match FindCrumb(t.crumbs, Pathname(href))
                   case Some(i) => Trim(t.crumbs, i, href)
                   case None => t.crumbs + [Crumb(if given.Some? then given.value else labelFor(href), href)])
    case ResetTrail => t.(resetFlag := true)
    case SetCurrentLabel(title) =>
      if t.crumbs == [] then t
      else t.(crumbs := t.crumbs[|t.crumbs| - 1 := t.crumbs[|t.crumbs| - 1].(title := title)])
  }

  // ----- The invariant

  /** No page is on the trail twice. */
  ghost predicate DistinctPages(crumbs: seq<Crumb>) {
    forall i, j :: 0 <= i < j < |crumbs| ==> Pathname(crumbs[i].href) != Pathname(crumbs[j].href)
  }

  lemma TrimKeepsPagesDistinct(crumbs: seq<Crumb>, i: nat, href: string)
    requires DistinctPages(crumbs) && i < |crumbs| && Pathname(crumbs[i].href) == Pathname(href)
    ensures DistinctPages(Trim(crumbs, i, href))
  {
    hide Pathname;
  }

  lemma PushKeepsPagesDistinct(crumbs: seq<Crumb>, c: Crumb)
    requires DistinctPages(crumbs) && FindCrumb(crumbs, Pathname(c.href)).None?
    ensures DistinctPages(crumbs + [c]) && DistinctPages(Cap(crumbs + [c]))
  {
    hide Pathname, FindCrumb;
  }

  lemma StepKeepsPagesDistinct(t: Trail, e: Event, labelFor: string -> string)
    requires DistinctPages(t.crumbs) && ValidEvent(e)
    ensures DistinctPages(Step(t, e, labelFor).crumbs)
    ensures e.RouteChange? ==>
      var crumbs := Step(t, e, labelFor).crumbs;
      && crumbs != [] && crumbs[|crumbs| - 1].href == e.pathname + e.search
      && Pathname(crumbs[|crumbs| - 1].href) == e.pathname
  {
    hide Pathname, FindCrumb;
    match e {
      case RouteChange(pathname, search) =>
        PathnameOfLocation(pathname, search);
        var found := FindCrumb(t.crumbs, pathname);
        if found.Some? {
          TrimKeepsPagesDistinct(t.crumbs, found.value, pathname + search);
        } else {
          PushKeepsPagesDistinct(t.crumbs, Crumb(labelFor(pathname), pathname + search));
        }
      case NavigateTo(href, given) =>
        var found := FindCrumb(t.crumbs, Pathname(href));
        if found.Some? {
          TrimKeepsPagesDistinct(t.crumbs, found.value, href);
        } else {
          PushKeepsPagesDistinct(t.crumbs, Crumb(if given.Some? then given.value else labelFor(href), href));
        }
      case ResetTrail =>
      case SetCurrentLabel(_) =>
    }
  }

  // ----- What each event leaves

  /** Page `page` is first met at crumb `k`. */
  ghost predicate MetAt(crumbs: seq<Crumb>, page: string, k: nat) {
    && k < |crumbs| && Pathname(crumbs[k].href) == page
    && forall j :: 0 <= j < k ==> Pathname(crumbs[j].href) != page
  }

  ghost predicate Met(crumbs: seq<Crumb>, page: string) {
    exists k: nat :: MetAt(crumbs, page, k)
  }

  /** Everything after crumb `k` is gone, and crumb `k` has a new address under its old title. */
  ghost predicate BackTo(before: seq<Crumb>, after: seq<Crumb>, k: nat, href: string) {
    && k < |before| && |after| == k + 1 && (forall j :: 0 <= j < k ==> after[j] == before[j])
    && after[k].title == before[k].title && after[k].href == href
  }

  /** `c` is the new last crumb, on top of the last ones before it, as many as `limit` lets stay. */
  ghost predicate PushedOn(before: seq<Crumb>, after: seq<Crumb>, c: Crumb, limit: nat) {
    && after != [] && after[|after| - 1] == c
    && |after| == (if |before| < limit then |before| else limit) + 1
    && forall j :: 0 <= j < |after| - 1 ==> after[j] == before[|before| - |after| + 1 + j]
  }

  lemma FoundIffMet(crumbs: seq<Crumb>, page: string)
    ensures FindCrumb(crumbs, page).Some? <==> Met(crumbs, page)
    ensures FindCrumb(crumbs, page).Some? ==> MetAt(crumbs, page, FindCrumb(crumbs, page).value)
  {
    hide Pathname, FindCrumb;
    var found := FindCrumb(crumbs, page);
    if found.Some? {
      assert MetAt(crumbs, page, found.value);
    }
  }

  lemma MetOnce(crumbs: seq<Crumb>, page: string, j: nat, k: nat)
    requires MetAt(crumbs, page, j) && MetAt(crumbs, page, k)
    ensures j == k
  {
    hide Pathname;
    assert j < k || j == k || k < j;
  }

  /**
    A route change: after a reset a single crumb under its own label; on a page of the trail
    back to it; at the root, or on an empty trail, a single crumb; otherwise the page on top
    of at most seven others.  The flag is down afterwards.
  */
  lemma RouteChangeTells(t: Trail, pathname: string, search: string, labelFor: string -> string)
    ensures var after := Step(t, RouteChange(pathname, search), labelFor);
      var here := Crumb(labelFor(pathname), pathname + search);
      && !after.resetFlag
      && (t.resetFlag ==> after.crumbs == [here])
      && (!t.resetFlag ==>
            && (forall k: nat :: MetAt(t.crumbs, pathname, k) ==> BackTo(t.crumbs, after.crumbs, k, pathname + search))
            && (!Met(t.crumbs, pathname) ==>
                  if IsRoot(pathname) || t.crumbs == [] then after.crumbs == [here]
                  else PushedOn(t.crumbs, after.crumbs, here, 7)))
  {
    hide Pathname, IsRoot, FindCrumb, MetAt, Met;
    FoundIffMet(t.crumbs, pathname);
    FoundIsIt(t.crumbs, pathname);
  }

  lemma FoundIsIt(crumbs: seq<Crumb>, page: string)
    ensures forall k: nat :: MetAt(crumbs, page, k) ==> FindCrumb(crumbs, page) == Some(k)
  {
    hide FindCrumb, MetAt;
    FoundIffMet(crumbs, page);
    forall k: nat | MetAt(crumbs, page, k) ensures FindCrumb(crumbs, page) == Some(k) {
      assert Met(crumbs, page);
      MetOnce(crumbs, page, FindCrumb(crumbs, page).value, k);
    }
  }

  /** A programmatic navigation: back to a page of the trail, or one more crumb under the given label or its own. */
  lemma NavigateToTells(t: Trail, href: string, given: Option<string>, labelFor: string -> string)
    ensures var after := Step(t, NavigateTo(href, given), labelFor);
      && after.resetFlag == t.resetFlag
      && (forall k: nat :: MetAt(t.crumbs, Pathname(href), k) ==> BackTo(t.crumbs, after.crumbs, k, href))
      && (!Met(t.crumbs, Pathname(href)) ==>
            PushedOn(t.crumbs, after.crumbs, Crumb(match given case Some(l) => l case None => labelFor(href), href),
                     |t.crumbs|))
  {
    hide Pathname, FindCrumb, MetAt, Met;
    FoundIffMet(t.crumbs, Pathname(href));
    FoundIsIt(t.crumbs, Pathname(href));
  }

  /** A reset raises the flag alone; a new label goes to the last crumb alone. */
  lemma ResetAndRelabelTell(t: Trail, title: string, labelFor: string -> string)
    ensures Step(t, ResetTrail, labelFor) == Trail(t.crumbs, true)
    ensures var after := Step(t, SetCurrentLabel(title), labelFor);
      && after.resetFlag == t.resetFlag && |after.crumbs| == |t.crumbs|
      && forall j :: 0 <= j < |t.crumbs| ==>
           && after.crumbs[j].href == t.crumbs[j].href
           && after.crumbs[j].title == if j == |t.crumbs| - 1 then title else t.crumbs[j].title
  {}

  /** The pathname is all that comes before the first question mark. */
  lemma PathnameTells(href: string)
    ensures Pathname(href) <= href && '?' !in Pathname(href)
    ensures Pathname(href) != href ==> href[|Pathname(href)|] == '?'
  {}

  /**
    The cap.  A step makes the trail longer than it was and longer than eight exactly when
    it is a programmatic navigation to a page not on a trail of eight or more: that push
    alone is not capped.
  */
  lemma OnlyNavigateToOutgrowsTheCap(t: Trail, e: Event, labelFor: string -> string)
    ensures var n, m := |t.crumbs|, |Step(t, e, labelFor).crumbs|;
      && m <= n + 1
      && (m > n && m > 8 <==> e.NavigateTo? && FindCrumb(t.crumbs, Pathname(e.href)).None? && n >= 8)
  {}

  function After(t: Trail, run: seq<Event>, labelFor: string -> string): Trail {
    if run == [] then t
    else Step(After(t, run[..|run| - 1], labelFor), run[|run| - 1], labelFor)
  }

  function Navigations(run: seq<Event>): nat {
    if run == [] then 0 else Navigations(run[..|run| - 1]) + if run[|run| - 1].NavigateTo? then 1 else 0
  }

  /** Reachable trails have distinct pages, and only `navigateTo` calls can take one past eight, one crumb each. */
  lemma {:induction false} ReachableTrails(run: seq<Event>, labelFor: string -> string)
    requires forall i :: 0 <= i < |run| ==> ValidEvent(run[i])
    ensures var t := After(Trail([], false), run, labelFor);
      DistinctPages(t.crumbs) && |t.crumbs| <= 8 + Navigations(run)
  {
    hide Step;
    if run != [] {
      var init, e := run[..|run| - 1], run[|run| - 1];
      ReachableTrails(init, labelFor);
      var before := After(Trail([], false), init, labelFor);
      StepKeepsPagesDistinct(before, e, labelFor);
      OnlyNavigateToOutgrowsTheCap(before, e, labelFor);
    }
  }

  /** A page address of `n` letters. */
  function PageNamed(n: nat): (s: string)
    ensures |s| == n + 1 && '?' !in s && (n > 0 ==> s[n] == 'a')
  {
    if n == 0 then "/" else PageNamed(n - 1) + "a"
  }

  lemma AfterTwo(t: Trail, run: seq<Event>, e: Event, f: Event, labelFor: string -> string)
    ensures After(t, run + [e, f], labelFor) == Step(Step(After(t, run, labelFor), e, labelFor), f, labelFor)
  {
    assert (run + [e, f])[..|run| + 1] == run + [e] && (run + [e])[..|run|] == run;
  }

  lemma FoundLast(crumbs: seq<Crumb>, c: Crumb)
    requires forall k :: 0 <= k < |crumbs| ==> Pathname(crumbs[k].href) != Pathname(c.href)
    ensures FindCrumb(crumbs, Pathname(c.href)) == None
    ensures FindCrumb(crumbs + [c], Pathname(c.href)) == Some(|crumbs|)
  {
    hide Pathname, FindCrumb;
    var all := crumbs + [c];
    assert all[|crumbs|] == c && forall k :: 0 <= k < |crumbs| ==> all[k] == crumbs[k];
  }

  lemma NavigateAndArrive(t: Trail, page: string, labelFor: string -> string)
    requires '?' !in page && !t.resetFlag
    requires forall k :: 0 <= k < |t.crumbs| ==> Pathname(t.crumbs[k].href) != page
    ensures Pathname(page) == page
    ensures Step(Step(t, NavigateTo(page, None), labelFor), RouteChange(page, ""), labelFor)
            == t.(crumbs := t.crumbs + [Crumb(labelFor(page), page)])
  {
    hide Pathname, FindCrumb, IsRoot;
    PathnameOfLocation(page, "");
    assert page + "" == page;
    FoundLast(t.crumbs, Crumb(labelFor(page), page));
  }

  lemma AfterThePages(t: Trail, run: seq<Event>, page: string, labelFor: string -> string)
    requires '?' !in page && !After(t, run, labelFor).resetFlag
    requires var crumbs := After(t, run, labelFor).crumbs;
      forall k :: 0 <= k < |crumbs| ==> Pathname(crumbs[k].href) != page
    ensures Pathname(page) == page
    ensures var before := After(t, run, labelFor);
      After(t, run + [NavigateTo(page, None), RouteChange(page, "")], labelFor)
      == before.(crumbs := before.crumbs + [Crumb(labelFor(page), page)])
  {
    hide Step, Pathname, After;
    AfterTwo(t, run, NavigateTo(page, None), RouteChange(page, ""), labelFor);
    NavigateAndArrive(After(t, run, labelFor), page, labelFor);
  }

  /** A trail of `n` crumbs on pages whose addresses get longer by one letter each. */
  ghost predicate Climbed(t: Trail, n: nat) {
    && |t.crumbs| == n && !t.resetFlag
    && forall k :: 0 <= k < n ==> |Pathname(t.crumbs[k].href)| == k + 2
  }

  /** The trail is unbounded: navigating on to new pages, each followed by its route change, reaches any length. */
  lemma {:induction false} NavigationIsUnbounded(n: nat, labelFor: string -> string) returns (run: seq<Event>)
    ensures forall i :: 0 <= i < |run| ==> ValidEvent(run[i])
    ensures Climbed(After(Trail([], false), run, labelFor), n)
  {
    hide Pathname;
    if n == 0 {
      run := [];
    } else {
      hide After, Step, PageNamed;
      var init := NavigationIsUnbounded(n - 1, labelFor);
      var page := PageNamed(n);
      run := init + [NavigateTo(page, None), RouteChange(page, "")];
      AfterThePages(Trail([], false), init, page, labelFor);
    }
  }

  // ----- Going down and back up

  datatype Location = Location(pathname: string, search: string)

  function CrumbFor(page: Location, labelFor: string -> string): Crumb {
    Crumb(labelFor(page.pathname), page.pathname + page.search)
  }

  /** Visits to pages that are new to the trail and to each other, none the root. */
  ghost predicate FreshVisits(crumbs: seq<Crumb>, pages: seq<Location>) {
    && (forall i :: 0 <= i < |pages| ==> IsLocation(pages[i].pathname, pages[i].search) && !IsRoot(pages[i].pathname))
    && (forall i, k :: 0 <= i < |pages| && 0 <= k < |crumbs| ==> Pathname(crumbs[k].href) != pages[i].pathname)
    && (forall i, j :: 0 <= i < j < |pages| ==> pages[i].pathname != pages[j].pathname)
  }

  function VisitAll(crumbs: seq<Crumb>, pages: seq<Location>, labelFor: string -> string): seq<Crumb> {
    if pages == [] then crumbs
    else
      var page := pages[|pages| - 1];
      Visit(VisitAll(crumbs, pages[..|pages| - 1], labelFor), page.pathname, page.search, labelFor)
  }

  function CrumbsFor(pages: seq<Location>, labelFor: string -> string): (r: seq<Crumb>)
    ensures |r| == |pages| && forall i :: 0 <= i < |r| ==> r[i] == CrumbFor(pages[i], labelFor)
  {
    seq(|pages|, i requires 0 <= i < |pages| => CrumbFor(pages[i], labelFor))
  }

  lemma CapTwice(all: seq<Crumb>, c: Crumb)
    ensures Cap(Cap(all) + [c]) == Cap(all + [c])
  {}

  lemma VisitNew(crumbs: seq<Crumb>, page: Location, labelFor: string -> string)
    requires crumbs != [] && !IsRoot(page.pathname)
    requires forall k :: 0 <= k < |crumbs| ==> Pathname(crumbs[k].href) != page.pathname
    ensures Visit(crumbs, page.pathname, page.search, labelFor) == Cap(crumbs + [CrumbFor(page, labelFor)])
  {
    hide Pathname, IsRoot, Cap;
  }

  lemma PagesOf(pages: seq<Location>, labelFor: string -> string)
    requires forall i :: 0 <= i < |pages| ==> IsLocation(pages[i].pathname, pages[i].search)
    ensures forall i :: 0 <= i < |pages| ==> Pathname(CrumbsFor(pages, labelFor)[i].href) == pages[i].pathname
  {
    hide Pathname, IsLocation;
    forall i | 0 <= i < |pages| ensures Pathname(CrumbsFor(pages, labelFor)[i].href) == pages[i].pathname {
      PathnameOfLocation(pages[i].pathname, pages[i].search);
    }
  }

  lemma CapKeepsMembers(all: seq<Crumb>)
    ensures forall k :: 0 <= k < |Cap(all)| ==> Cap(all)[k] == all[|all| - |Cap(all)| + k]
  {}

  /** One more new page on top of those already visited. */
  lemma VisitOneMore(crumbs: seq<Crumb>, pages: seq<Location>, before: seq<Crumb>, labelFor: string -> string)
    requires crumbs != [] && pages != [] && FreshVisits(crumbs, pages)
    requires before == if |pages| == 1 then crumbs else Cap(crumbs + CrumbsFor(pages[..|pages| - 1], labelFor))
    ensures var page := pages[|pages| - 1];
      Visit(before, page.pathname, page.search, labelFor) == Cap(crumbs + CrumbsFor(pages, labelFor))
  {
    hide Pathname, IsRoot, Visit, FindCrumb, CrumbFor;
    var n := |pages| - 1;
    var c := CrumbFor(pages[n], labelFor);
    var all := crumbs + CrumbsFor(pages[..n], labelFor);
    assert all + [c] == crumbs + CrumbsFor(pages, labelFor);
    PagesOf(pages[..n], labelFor);
    forall k | 0 <= k < |all| ensures Pathname(all[k].href) != pages[n].pathname {
      if |crumbs| <= k { assert all[k] == CrumbsFor(pages[..n], labelFor)[k - |crumbs|]; }
    }
    CapKeepsMembers(all);
    if n == 0 { assert all == crumbs; }
    VisitNew(before, pages[n], labelFor);
    CapTwice(all, c);
  }

  lemma {:induction false} VisitingPushes(crumbs: seq<Crumb>, pages: seq<Location>, labelFor: string -> string)
    requires crumbs != [] && FreshVisits(crumbs, pages)
    ensures VisitAll(crumbs, pages, labelFor)
            == if pages == [] then crumbs else Cap(crumbs + CrumbsFor(pages, labelFor))
  {
    hide Pathname, IsRoot, Visit, FindCrumb, Cap;
    if pages != [] {
      VisitingPushes(crumbs, pages[..|pages| - 1], labelFor);
      VisitOneMore(crumbs, pages, VisitAll(crumbs, pages[..|pages| - 1], labelFor), labelFor);
    }
  }

  /** On the trail and the whole descent uncapped, `p` is met once. */
  lemma OnlyOnceOnTheWay(crumbs: seq<Crumb>, p: string, pages: seq<Location>, labelFor: string -> string)
    requires crumbs != [] && DistinctPages(crumbs) && Pathname(crumbs[|crumbs| - 1].href) == p
    requires FreshVisits(crumbs, pages)
    ensures var all := crumbs + CrumbsFor(pages, labelFor);
      forall i :: 0 <= i < |all| ==> (Pathname(all[i].href) == p <==> i == |crumbs| - 1)
  {
    hide Pathname, IsRoot, IsLocation, CrumbFor;
    var all, n := crumbs + CrumbsFor(pages, labelFor), |crumbs|;
    PagesOf(pages, labelFor);
    forall i | 0 <= i < |all| ensures Pathname(all[i].href) == p <==> i == n - 1 {
      if n <= i { assert all[i] == CrumbsFor(pages, labelFor)[i - n]; }
    }
  }

  /** Where `p` is after the descent: in its old place, further forward, or gone. */
  lemma AfterTheDescent(crumbs: seq<Crumb>, p: string, pages: seq<Location>, labelFor: string -> string)
    requires crumbs != [] && DistinctPages(crumbs) && Pathname(crumbs[|crumbs| - 1].href) == p
    requires pages != [] && FreshVisits(crumbs, pages)
    ensures var n, k := |crumbs|, |pages|;
      FindCrumb(VisitAll(crumbs, pages, labelFor), p)
      == if n + k <= 8 then Some(n - 1) else if k <= 7 then Some(7 - k) else None
  {
    hide Pathname, IsRoot, FindCrumb, VisitAll, Cap, FreshVisits, DistinctPages;
    var all := crumbs + CrumbsFor(pages, labelFor);
    VisitingPushes(crumbs, pages, labelFor);
    OnlyOnceOnTheWay(crumbs, p, pages, labelFor);
    OnItsOwn(all, |crumbs| - 1, p);
  }

  lemma OnItsOwn(all: seq<Crumb>, at: nat, p: string)
    requires at < |all| && Pathname(all[at].href) == p
    requires forall i :: 0 <= i < |all| && i != at ==> Pathname(all[i].href) != p
    ensures FindCrumb(Cap(all), p)
            == if |all| <= 8 then Some(at) else if |all| - 8 <= at then Some(at - (|all| - 8)) else None
  {
    hide Pathname, FindCrumb;
    CapKeepsMembers(all);
  }

  /** Coming back to a page still on the trail restores it exactly when nothing was capped away. */
  lemma BackWhenKept(crumbs: seq<Crumb>, p: string, search: string, rest: seq<Crumb>, labelFor: string -> string)
    requires crumbs != [] && crumbs[|crumbs| - 1].href == p + search && 1 <= |rest| <= 7
    requires FindCrumb(Cap(crumbs + rest), p)
             == if |crumbs| + |rest| <= 8 then Some(|crumbs| - 1) else Some(7 - |rest|)
    ensures Visit(Cap(crumbs + rest), p, search, labelFor) == crumbs <==> |crumbs| + |rest| <= 8
  {
    hide Pathname, IsRoot, FindCrumb;
    var back := Visit(Cap(crumbs + rest), p, search, labelFor);
    if |crumbs| + |rest| <= 8 {
      assert back == (crumbs + rest)[..|crumbs| - 1] + [crumbs[|crumbs| - 1]] == crumbs;
    } else {
      assert |back| == 8 - |rest|;
    }
  }

  /** Coming back to a page that is gone restores the trail exactly when a fresh start does. */
  lemma BackWhenGone(crumbs: seq<Crumb>, p: string, search: string, rest: seq<Crumb>, labelFor: string -> string)
    requires crumbs != [] && |rest| >= 8 && FindCrumb(Cap(crumbs + rest), p).None?
    requires forall k :: 0 <= k < |rest| ==> rest[k] !in crumbs
    ensures Visit(Cap(crumbs + rest), p, search, labelFor) == crumbs
       <==> crumbs == [Crumb(labelFor(p), p + search)] && IsRoot(p)
  {
    hide Pathname, IsRoot, FindCrumb;
    var down := Cap(crumbs + rest);
    assert down[1] == rest[|rest| - 7];
    if !IsRoot(p) {
      assert Visit(down, p, search, labelFor)[0] == down[1];
    }
  }

  lemma DescentIsNew(crumbs: seq<Crumb>, pages: seq<Location>, labelFor: string -> string)
    requires FreshVisits(crumbs, pages)
    ensures forall k :: 0 <= k < |pages| ==> CrumbsFor(pages, labelFor)[k] !in crumbs
  {
    hide Pathname, IsRoot, IsLocation, CrumbFor;
    PagesOf(pages, labelFor);
  }

  /**
    The undo law.  Go from a trail ending at page `p` down through k > 0 new pages and come
    back to p: the trail is exactly as it was if and only if nothing was capped away, or it
    was just the root page, under its own name, which a fresh start rebuilds.
  */
  lemma ReturningRestoresTheTrail(crumbs: seq<Crumb>, p: string, search: string, pages: seq<Location>,
                                  labelFor: string -> string)
    requires crumbs != [] && DistinctPages(crumbs) && IsLocation(p, search)
    requires crumbs[|crumbs| - 1].href == p + search
    requires pages != [] && FreshVisits(crumbs, pages)
    ensures Visit(VisitAll(crumbs, pages, labelFor), p, search, labelFor) == crumbs
      <==> |crumbs| + |pages| <= 8 || (|pages| >= 8 && crumbs == [Crumb(labelFor(p), p + search)] && IsRoot(p))
  {
    hide Pathname, IsRoot, FindCrumb, FreshVisits, DistinctPages, VisitAll, Visit, Cap;
    VisitingPushes(crumbs, pages, labelFor);
    PathnameOfLocation(p, search);
    AfterTheDescent(crumbs, p, pages, labelFor);
    if |pages| <= 7 {
      BackWhenKept(crumbs, p, search, CrumbsFor(pages, labelFor), labelFor);
    } else {
      DescentIsNew(crumbs, pages, labelFor);
      BackWhenGone(crumbs, p, search, CrumbsFor(pages, labelFor), labelFor);
    }
  }

  // ----- The provider

  /** The provider's state and its copy in the tab's session storage, which a page refresh loads back. */
  class DrilldownProvider {
    const labelForPath: string -> string
    var crumbs: seq<Crumb>
    var storedCrumbs: seq<Crumb>
    var resetFlag: bool

    ghost predicate Valid()
      reads this
    {
      storedCrumbs == crumbs && DistinctPages(crumbs)
    }

    ghost function State(): Trail
      reads this
    {
      Trail(crumbs, resetFlag)
    }

    constructor (labelForPath: string -> string, stored: seq<Crumb>, resetFlag: bool)
      requires DistinctPages(stored)
      ensures Valid() && State() == Trail(stored, resetFlag) && this.labelForPath == labelForPath
    {
      this.labelForPath, this.crumbs, this.storedCrumbs, this.resetFlag := labelForPath, stored, stored, resetFlag;
    }

    method SaveAndSet(next: seq<Crumb>)
      requires DistinctPages(next)
      modifies this`crumbs, this`storedCrumbs
      ensures Valid() && crumbs == next
    {
      storedCrumbs := next;
      crumbs := next;
    }

    method OnRouteChange(pathname: string, search: string)
      requires Valid() && IsLocation(pathname, search)
      modifies this
      ensures Valid() && State() == Step(old(State()), RouteChange(pathname, search), labelForPath)
      ensures crumbs != [] && crumbs[|crumbs| - 1].href == pathname + search
    {
      StepKeepsPagesDistinct(State(), RouteChange(pathname, search), labelForPath);
      var path := pathname + search;
      if resetFlag {
        resetFlag := false;
        SaveAndSet([Crumb(labelForPath(pathname), path)]);
        return;
      }
      var existing := FindCrumb(crumbs, pathname);
      if existing.Some? {
        var trimmed := crumbs[..existing.value + 1];
        trimmed := trimmed[existing.value := trimmed[existing.value].(href := path)];
        assert trimmed == Trim(crumbs, existing.value, path);
        SaveAndSet(trimmed);
        return;
      }
      if IsRoot(pathname) || crumbs == [] {
        SaveAndSet([Crumb(labelForPath(pathname), path)]);
        return;
      }
      var next := crumbs + [Crumb(labelForPath(pathname), path)];
      SaveAndSet(if |next| > 8 then next[|next| - 8..] else next);
    }

    method Navigate(href: string, given: Option<string>)
      requires Valid()
      modifies this
      ensures Valid() && State() == Step(old(State()), NavigateTo(href, given), labelForPath)
    {
      StepKeepsPagesDistinct(State(), NavigateTo(href, given), labelForPath);
      var existing := FindCrumb(crumbs, Pathname(href));
      if existing.Some? {
        var trimmed := crumbs[..existing.value + 1];
        trimmed := trimmed[existing.value := trimmed[existing.value].(href := href)];
        assert trimmed == Trim(crumbs, existing.value, href);
        SaveAndSet(trimmed);
        return;
      }
      SaveAndSet(crumbs + [Crumb(if given.Some? then given.value else labelForPath(href), href)]);
    }

    method Reset()
      requires Valid()
      modifies this`resetFlag
      ensures Valid() && State() == Step(old(State()), ResetTrail, labelForPath)
    {
      resetFlag := true;
    }

    method Relabel(title: string)
      requires Valid()
      modifies this
      ensures Valid() && State() == Step(old(State()), SetCurrentLabel(title), labelForPath)
    {
      StepKeepsPagesDistinct(State(), SetCurrentLabel(title), labelForPath);
      if crumbs == [] {
        return;
      }
      SaveAndSet(crumbs[|crumbs| - 1 := crumbs[|crumbs| - 1].(title := title)]);
    }
  }
}
