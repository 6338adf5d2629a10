/**
 * The dashboard page (src/app/page.tsx): the current segment taken from the
 * router's pathname, the view each segment selects, the "My Stories"
 * navigation entries rebuilt from the stored stories, and the in-memory
 * router whose `navigate` overwrites the pathname.
 */
module Dashboard {
  import opened Wrappers
  import opened JsString
  import opened Stories

  /** The segment prefix that addresses a story by its title. */
  const StoryPrefix: string := "story-"

  // ---------------------------------------------------------------------
  // The current segment
  // ---------------------------------------------------------------------

  /** `pathname.split("/").filter(Boolean).pop() || "new"`. */
  function CurrentSegment(pathname: string): string {
    var parts := FilterNonEmpty(Split(pathname, '/'));
    if parts == [] || parts[|parts| - 1] == "" then "new" else parts[|parts| - 1]
  }

  ghost predicate AllSlashes(p: string) {
    forall m :: 0 <= m < |p| ==> p[m] == '/'
  }

  /** `r` is the last non-empty `/`-separated component of `p` and starts at
      position `i`: it begins the path or follows a `/`, and only `/`
      characters come after it. */
  ghost predicate LastComponentAt(p: string, r: string, i: int) {
    && 0 <= i && i + |r| <= |p| && p[i..i + |r|] == r
    && (i == 0 || p[i - 1] == '/')
    && AllSlashes(p[i + |r|..])
  }

  /** A trailing `/` yields an empty part, which the filter drops. */
  lemma SegmentSlashStep(p: string)
    requires p != [] && p[|p| - 1] == '/'
    ensures CurrentSegment(p) == CurrentSegment(p[..|p| - 1])
  {
    FilterNonEmptyAppend(Split(p[..|p| - 1], '/'), "");
  }

  /** A trailing non-`/` character extends the last part, and that part is
      the segment. */
  lemma SegmentCharStep(p: string)
    requires p != [] && p[|p| - 1] != '/'
    ensures var parts := Split(p[..|p| - 1], '/');
            CurrentSegment(p) == parts[|parts| - 1] + [p[|p| - 1]]
  {
    var q := p[..|p| - 1];
    var parts := Split(q, '/');
    var init := parts[..|parts| - 1];
    var r := parts[|parts| - 1] + [p[|p| - 1]];
    assert Split(p, '/') == init + [r];
    FilterNonEmptyAppend(init, r);
  }

  /** When the path ends in a character other than `/`, the segment is the
      non-empty suffix after the last `/`. */
  lemma SegmentCharStepAt(p: string)
    requires p != [] && p[|p| - 1] != '/'
    ensures var r := CurrentSegment(p);
            r != "" && '/' !in r && LastComponentAt(p, r, |p| - |r|)
  {
    SegmentCharStep(p);
    var q := p[..|p| - 1];
    LastPartIsSuffix(q, '/');
    var parts := Split(q, '/');
    var r := parts[|parts| - 1] + [p[|p| - 1]];
    var i := |p| - |r|;
    assert p[i..i + |r|] == r;
  }

  /** The current segment is never empty and never holds a `/`. It is "new"
      when the path has no non-empty component (as for "/" and ""), and the
      last non-empty component otherwise. */
  lemma {:induction false} CurrentSegmentIsLastComponent(p: string)
    ensures CurrentSegment(p) != "" && '/' !in CurrentSegment(p)
    ensures AllSlashes(p) ==> CurrentSegment(p) == "new"
    ensures !AllSlashes(p) ==> exists i :: LastComponentAt(p, CurrentSegment(p), i)
    decreases |p|
  {
    if p == [] {
      FilterNonEmptyAppend([], "");
    } else if p[|p| - 1] != '/' {
      SegmentCharStepAt(p);
    } else {
      var q := p[..|p| - 1];
      SegmentSlashStep(p);
      CurrentSegmentIsLastComponent(q);
      SlashStepAt(p, q, CurrentSegment(q));
    }
  }

  /** A trailing `/` keeps the path all slashes or keeps its last component
      where it was. */
  lemma SlashStepAt(p: string, q: string, r: string)
    requires p != [] && p[|p| - 1] == '/' && q == p[..|p| - 1]
    requires !AllSlashes(q) ==> exists i :: LastComponentAt(q, r, i)
    ensures AllSlashes(q) ==> AllSlashes(p)
    ensures !AllSlashes(p) ==> exists i :: LastComponentAt(p, r, i)
  {
    if AllSlashes(q) {
      forall m | 0 <= m < |p| ensures p[m] == '/' {
        if m < |q| { assert p[m] == q[m]; }
      }
    } else {
      var i :| LastComponentAt(q, r, i);
      assert p[i..i + |r|] == q[i..i + |r|];
      assert p[i + |r|..] == q[i + |r|..] + ['/'];
      assert LastComponentAt(p, r, i);
    }
  }

  /** The root path "/" selects the "new" segment. */
  lemma RootIsNew()
    ensures CurrentSegment("/") == "new"
  {
    CurrentSegmentIsLastComponent("/");
  }

  /** A path that ends in `/` followed by a non-empty, slash-free segment
      selects that segment. */
  lemma SegmentOfChildPath(p: string, seg: string)
    requires seg != "" && '/' !in seg
    ensures CurrentSegment(p + "/" + seg) == seg
  {
    var full := p + "/" + seg;
    var n := |full|;
    assert full[n - 1] == seg[|seg| - 1];
    assert !AllSlashes(full);
    CurrentSegmentIsLastComponent(full);
    var r := CurrentSegment(full);
    var i :| LastComponentAt(full, r, i);
    assert i + |r| == n;
    assert forall k :: i <= k < n ==> full[k] == r[k - i];
    assert forall k :: n - |seg| <= k < n ==> full[k] == seg[k - n + |seg|];
    assert full[n - |seg| - 1] == '/';
    assert i == n - |seg|;
    assert r == full[n - |seg|..] == seg;
  }

  // ---------------------------------------------------------------------
  // Dispatching a segment to a view
  // ---------------------------------------------------------------------

  /** What `renderSegmentContent` shows. */
  datatype View =
    | StoryPage(story: Story)
    | StoryNotFound
    | NewStoryContent
    | OrdersContent
    | AddNewStoryForm
    | TrafficContent
    | StoriesContent
    | IntegrationsContent
    | Welcome

  /** The segments the `switch` lists. */
  const SwitchSegments: set<string> := {"new", "orders", "add", "traffic", "stories", "integrations"}

  /** `segment.replace("story-", "")`. */
  function DecodeStoryTitle(segment: string): string {
    ReplaceFirst(segment, StoryPrefix, "")
  }

  /** The title a story segment addresses is what follows the prefix. */
  lemma DecodeStorySegment(segment: string)
    requires StartsWith(segment, StoryPrefix)
    ensures DecodeStoryTitle(segment) == segment[|StoryPrefix|..]
  {
    ReplacePrefix(segment, StoryPrefix, "");
  }

  /** Round trip: the navigation segment of a story decodes to its title. */
  lemma StorySegmentRoundTrip(t: string)
    ensures StartsWith(StoryPrefix + t, StoryPrefix)
    ensures DecodeStoryTitle(StoryPrefix + t) == t
  {
    DecodeStorySegment(StoryPrefix + t);
  }

  /** `renderSegmentContent(segment)`. A segment starting with "story-"
      shows the first stored story carrying the decoded title, or the
      "Story not found" notice, and never reaches the switch; each segment
      the switch lists shows its own view ("add" the creation form) and a
      segment the switch does not list shows the welcome page. */
  function RenderSegmentContent(segment: string, stories: seq<Story>): (v: View)
    ensures StartsWith(segment, StoryPrefix) <==> v.StoryPage? || v.StoryNotFound?
    ensures v.StoryPage? ==>
      exists i :: FirstWithTitle(stories, segment[|StoryPrefix|..], i) && v.story == stories[i]
    ensures v.StoryNotFound? ==>
      forall i :: 0 <= i < |stories| ==> stories[i].title != segment[|StoryPrefix|..]
    ensures v == AddNewStoryForm <==> segment == "add"
    ensures v == NewStoryContent <==> segment == "new"
    ensures v == OrdersContent <==> segment == "orders"
    ensures v == TrafficContent <==> segment == "traffic"
    ensures v == StoriesContent <==> segment == "stories"
    ensures v == IntegrationsContent <==> segment == "integrations"
    ensures v == Welcome <==> !StartsWith(segment, StoryPrefix) && segment !in SwitchSegments
  {
    if StartsWith(segment, StoryPrefix) then
      assert segment[4] == 'y' && segment[5] == '-';
      DecodeStorySegment(segment);
      match FindByTitle(stories, DecodeStoryTitle(segment))
      case Some(s) => StoryPage(s)
      case None => StoryNotFound
    else
      match segment
      case "new" => NewStoryContent
      case "orders" => OrdersContent
      case "add" => AddNewStoryForm
      case "traffic" => TrafficContent
      case "stories" => StoriesContent
      case "integrations" => IntegrationsContent
      case _ => Welcome
  }

  /** A story segment resolves exactly as `find` does: to the first story
      with the decoded title, and to "not found" when there is none. */
  lemma StorySegmentResolves(t: string, stories: seq<Story>)
    ensures RenderSegmentContent(StoryPrefix + t, stories)
         == match FindByTitle(stories, t)
            case Some(s) => StoryPage(s)
            case None => StoryNotFound
  {
    StorySegmentRoundTrip(t);
  }

  // ---------------------------------------------------------------------
  // Navigation
  // ---------------------------------------------------------------------

  /** A child entry of a navigation item (icons are not modelled). */
  datatype NavLink = NavLink(segment: string, title: string)

  /** A navigation item. An item without children has `[]`. */
  datatype NavItem =
    | Header(title: string)
    | Divider
    | Page(segment: string, title: string, children: seq<NavLink>)

  const AddStoryLink: NavLink := NavLink("add", "Add a new story")

  /** `NAVIGATION`, the initial navigation state. */
  const InitialNavigation: seq<NavItem> := [
    Header("Main items"),
    Page("home", "Home", []),
    Page("orders", "Orders", []),
    Divider,
    Header("Analytics"),
    Page("stories", "My Stories", [AddStoryLink]),
    Page("integrations", "Integrations", [])
  ]

  /** The entry of one story: its segment is the prefix and the title. */
  function StoryLink(s: Story): NavLink {
    NavLink(StoryPrefix + s.title, s.title)
  }

  /** The children of "My Stories": the add entry, then one entry per story
      in list order. */
  function StoryLinks(stories: seq<Story>): (links: seq<NavLink>)
    ensures |links| == 1 + |stories|
    ensures links[0] == AddStoryLink
    ensures forall k :: 0 <= k < |stories| ==> links[k + 1] == StoryLink(stories[k])
  {
    [AddStoryLink] + seq(|stories|, k requires 0 <= k < |stories| => StoryLink(stories[k]))
  }

  /** Every child entry opens what it names: the add entry the creation
      form, a story entry the first story carrying that entry's title. */
  lemma StoryLinksRoute(stories: seq<Story>, k: nat)
    requires k < |stories|
    ensures RenderSegmentContent(StoryLinks(stories)[0].segment, stories) == AddNewStoryForm
    ensures var v := RenderSegmentContent(StoryLinks(stories)[k + 1].segment, stories);
            v.StoryPage? && v.story.title == stories[k].title
  {
    var t := stories[k].title;
    StorySegmentResolves(t, stories);
    assert FindByTitle(stories, t).Some?;
  }

  /** The item the effect's `find` selects: a page whose segment is
      "stories" (headers and dividers have no segment). */
  predicate IsStoriesItem(item: NavItem) {
    item.Page? && item.segment == "stories"
  }

  /** The position of the first "stories" item at or after `from`. */
  function FindStoriesItem(nav: seq<NavItem>, from: nat): (r: Option<nat>)
    requires from <= |nav|
    ensures r.Some? ==> from <= r.value < |nav| && IsStoriesItem(nav[r.value])
    ensures r.Some? ==> forall k :: from <= k < r.value ==> !IsStoriesItem(nav[k])
    ensures r.None? ==> forall k :: from <= k < |nav| ==> !IsStoriesItem(nav[k])
    decreases |nav| - from
  {
    if from == |nav| then None
    else if IsStoriesItem(nav[from]) then Some(from)
    else FindStoriesItem(nav, from + 1)
  }

  /** The navigation the effect produces: the first "stories" item gets the
      children rebuilt from the stories; every other item, and the whole
      navigation when there is no "stories" item, stays as it was. */
  function RebuildNavigation(nav: seq<NavItem>, stories: seq<Story>): (r: seq<NavItem>)
    ensures |r| == |nav|
    ensures FindStoriesItem(nav, 0).None? ==> r == nav
    ensures FindStoriesItem(nav, 0).Some? ==>
      var i := FindStoriesItem(nav, 0).value;
      && r[i] == nav[i].(children := StoryLinks(stories))
      && |r[i].children| == 1 + |stories|
      && forall k :: 0 <= k < |nav| && k != i ==> r[k] == nav[k]
  {
    match FindStoriesItem(nav, 0)
    case None => nav
    case Some(i) => nav[i := nav[i].(children := StoryLinks(stories))]
  }

  /** Changing the children of the "stories" item does not move it. */
  lemma {:induction false} FindStoriesItemIgnoresChildren(nav: seq<NavItem>, i: nat, links: seq<NavLink>, from: nat)
    requires from <= |nav|
    requires FindStoriesItem(nav, from) == Some(i)
    ensures FindStoriesItem(nav[i := nav[i].(children := links)], from) == Some(i)
    decreases |nav| - from
  {
    if from < i {
      FindStoriesItemIgnoresChildren(nav, i, links, from + 1);
    }
  }

  /** The rebuilt children depend only on the stories, not on the children
      the item had before. */
  lemma RebuildIgnoresOldChildren(nav: seq<NavItem>, stories: seq<Story>, links: seq<NavLink>)
    requires FindStoriesItem(nav, 0).Some?
    ensures var i := FindStoriesItem(nav, 0).value;
            (RebuildNavigation(nav[i := nav[i].(children := links)], stories)
             == RebuildNavigation(nav, stories))
  {
    var i := FindStoriesItem(nav, 0).value;
    FindStoriesItemIgnoresChildren(nav, i, links, 0);
  }

  /** Rebuilding twice with the same stories equals rebuilding once. */
  lemma RebuildIdempotent(nav: seq<NavItem>, stories: seq<Story>)
    ensures RebuildNavigation(RebuildNavigation(nav, stories), stories)
         == RebuildNavigation(nav, stories)
  {
    if FindStoriesItem(nav, 0).Some? {
      RebuildIgnoresOldChildren(nav, stories, StoryLinks(stories));
    }
  }

  /** The initial navigation has its "stories" item at position 5, and with
      no stories the rebuild leaves it as it is. */
  lemma InitialNavigationRebuild(stories: seq<Story>)
    ensures FindStoriesItem(InitialNavigation, 0) == Some(5)
    ensures |RebuildNavigation(InitialNavigation, stories)[5].children| == 1 + |stories|
    ensures RebuildNavigation(InitialNavigation, []) == InitialNavigation
  {
    var nav := InitialNavigation;
    assert FindStoriesItem(nav, 5) == Some(5);
    assert FindStoriesItem(nav, 4) == Some(5);
    assert FindStoriesItem(nav, 3) == Some(5);
    assert FindStoriesItem(nav, 2) == Some(5);
    assert FindStoriesItem(nav, 1) == Some(5);
    assert StoryLinks([]) == [AddStoryLink];
  }

  // ---------------------------------------------------------------------
  // Routes after the store changes
  // ---------------------------------------------------------------------

  /** After a new story is appended, its segment opens it when its title was
      new, and opens the older story with that title otherwise: there is no
      duplicate check. */
  lemma AppendedStoryRoute(stories: seq<Story>, t: string)
    ensures RenderSegmentContent(StoryPrefix + t, stories + [NewStory(t)])
         == match FindByTitle(stories, t)
            case Some(s) => StoryPage(s)
            case None => StoryPage(NewStory(t))
  {
    StorySegmentResolves(t, stories + [NewStory(t)]);
    FindByTitleAppend(stories, NewStory(t), t);
  }

  /** After a content change of the story titled `t`, that story's segment
      opens a story with the new blocks, and it opens a story at all exactly
      when it did before. */
  lemma ContentChangeRoute(stories: seq<Story>, t: string, blocks: seq<Block>)
    ensures RenderSegmentContent(StoryPrefix + t, UpdateContent(stories, t, blocks))
         == if FindByTitle(stories, t).Some? then StoryPage(Story(t, blocks)) else StoryNotFound
  {
    StorySegmentResolves(t, UpdateContent(stories, t, blocks));
    FindAfterUpdate(stories, t, blocks);
  }

  /** A story entry's segment, placed under a parent path, is the current
      segment again when the title holds no `/`. */
  lemma StoryPathRoundTrip(parent: string, t: string)
    requires '/' !in t
    ensures CurrentSegment(parent + "/" + StoryPrefix + t) == StoryPrefix + t
  {
    assert parent + "/" + StoryPrefix + t == parent + "/" + (StoryPrefix + t);
    SegmentOfChildPath(parent, StoryPrefix + t);
  }

  /** A title with a `/` breaks that round trip: under "/stories" the
      entry of the story "a/b" selects the segment "b". */
  lemma SlashInTitleRoute()
    ensures CurrentSegment("/stories/" + StoryPrefix + "a/b") == "b"
  {
    assert "/stories/" + StoryPrefix + "a/b" == "/stories/story-a" + "/" + "b";
    SegmentOfChildPath("/stories/story-a", "b");
  }

  /** For every parent path and every title holding a `/`, the story's
      entry selects a segment other than the story's own. */
  lemma SlashTitleNeverRoundTrips(parent: string, t: string)
    requires '/' in t
    ensures CurrentSegment(parent + "/" + StoryPrefix + t) != StoryPrefix + t
  {
    CurrentSegmentIsLastComponent(parent + "/" + StoryPrefix + t);
    var k :| 0 <= k < |t| && t[k] == '/';
    assert (StoryPrefix + t)[|StoryPrefix| + k] == '/';
  }

  // ---------------------------------------------------------------------
  // The page component
  // ---------------------------------------------------------------------

  /** The page's state: the router's pathname, the navigation state, and
      the shared story store. */
  class DashboardLayout {
    var pathname: string
    var navigation: seq<NavItem>
    const store: StoryStore

    /** `useDemoRouter("/")` and `useState(NAVIGATION)`. */
    constructor (store: StoryStore)
      ensures pathname == "/" && navigation == InitialNavigation && this.store == store
    {
      pathname := "/";
      navigation := InitialNavigation;
      this.store := store;
    }

    /** `router.navigate(path)`: the pathname becomes `path`; nothing else
        changes. */
    method Navigate(path: string)
      modifies this
      ensures pathname == path && navigation == old(navigation)
    {
      pathname := path;
    }

    /** The navigation effect, run when the stories change: the children of
        the first "stories" item are overwritten in place. */
    method SyncNavigation()
      modifies this
      ensures navigation == RebuildNavigation(old(navigation), store.stories)
      ensures pathname == old(pathname)
    {
      var found := FindStoriesItem(navigation, 0);
      if found.Some? {
        var i := found.value;
        navigation := navigation[i := navigation[i].(children := StoryLinks(store.stories))];
      }
    }

    /** The segment derived from the current pathname: never empty and
        never holding a `/`. */
    function Segment(): (seg: string)
      reads this
      ensures seg != "" && '/' !in seg
      ensures AllSlashes(pathname) ==> seg == "new"
    {
      CurrentSegmentIsLastComponent(pathname);
      CurrentSegment(pathname)
    }

    /** What the page shows for the current pathname; at the root "/" it is
        the new-story content. */
    function Content(): (v: View)
      reads this, store
      ensures pathname == "/" ==> v == NewStoryContent
    {
      RootIsNew();
      RenderSegmentContent(Segment(), store.stories)
    }
  }
}
