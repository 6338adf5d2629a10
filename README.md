# Storytime: a Dafny model of the story list, story creation and routing

Storytime is a small client-side application. Users create "stories"
(titled block documents), list them in the navigation sidebar of a dashboard,
and edit them in a block editor. The stories are kept as one array under the
local-storage key `"my-stories"`. This project models the three parts of the
application that are plain list and string logic, and proves what each one
does:

- **The story list** (`stories.dfy`, module `Stories`). A `Story` is a title
  plus a sequence of `Block`s. Each block has a `type` tag, `props` and inline
  text spans. The store is a class `StoryStore` with a `seq<Story>` field, and
  every component holds a reference to it. Two list operations are defined:
  - `NewStory`, the two-block skeleton an added story starts with;
  - `UpdateContent`, which replaces the content of every story with a given
    title.

  `FindByTitle` is the `find` lookup used by the router.
- **The creation component** (`add_new_story.dfy`, module
  `AddNewStoryComponent`). The class `AddNewStory` has the state slots `mode`
  (`Choose | Ai | Manual`) and `title`, plus one method per button. The
  "Add this story" handler is guarded by the trimmed title, appends the
  skeleton story, clears the title and returns to the choice screen.
- **The story view** (`story_view.dfy`, module `StoryViewComponent`). The
  class `StoryView` holds the `story` prop. Its change handler writes the
  editor's current blocks into the store through `UpdateContent`.
- **The dashboard page** (`dashboard.dfy`, module `Dashboard`). It covers:
  - the current segment, taken from the router's pathname with
    `split("/").filter(Boolean).pop() || "new"`;
  - `renderSegmentContent`, which decodes `story-<title>`, looks the title up
    and dispatches every other segment through the `switch`;
  - the navigation effect, which rebuilds the children of the "My Stories"
    item from the stored stories;
  - the in-memory router, whose `navigate` overwrites the pathname.
- **JavaScript string operations** (`js_string.dfy`, module `JsString`):
  `trim` with the ECMA-262 white-space set, `startsWith`, `indexOf`,
  `replace` with a string pattern (first occurrence only), `split` on one
  character, and `filter(Boolean)`.

The editor's blocks are an opaque input: `HandleContentChange` takes them as
a parameter. The three `useLocalStorage("my-stories")` hooks read and write
the same slot, so they are modelled as one shared `StoryStore` object.

Some of the proved properties concern behaviour the code has but does not
advertise:
- Adding a title that already exists still appends a story, and its segment
  then opens the older story (`AppendedStoryRoute`).
- A content change rewrites every story with that title, not only the first
  one (`UpdateContent`).
- A story segment is routed back to itself exactly when the title contains
  no `/` (`StoryPathRoundTrip`, `SlashTitleNeverRoundTrips`, and the
  instance `SlashInTitleRoute`). This assumes the
  navigation framework places a child segment after its parent's path with a
  `/`, verbatim and without percent-encoding, as `"/stories/story-<title>"`.

## Model

| member | source | states |
|---|---|---|
| `JsString.SkipSpace` | src/app/AddNewStory.tsx:14 | the front scan of `trim` stops at the first character that is not white space, or at the end; everything skipped is white space |
| `JsString.SkipSpaceBack` | src/app/AddNewStory.tsx:14 | the back scan of `trim` stops just after the last character that is not white space, never before the front scan; everything skipped is white space |
| `JsString.Trim` | src/app/AddNewStory.tsx:14 | `title.trim()` is the infix of the input with only white space around it; it neither starts nor ends with white space; it is empty exactly when the input is all white space (ECMA-262 WhiteSpace and LineTerminator) |
| `JsString.TrimIdempotent` | src/app/AddNewStory.tsx:18 | trimming the stored title again changes nothing |
| `JsString.IndexOf` | src/app/page.tsx:106 | for a start within the string, the position returned is the first occurrence of the pattern at or after the start; `None` means no occurrence there |
| `JsString.StartsWith` | src/app/page.tsx:105 | `segment.startsWith(prefix)`: the prefix is no longer than the string and equals its first characters; used through `RenderSegmentContent` and `ReplacePrefix` |
| `JsString.ReplaceFirst` | src/app/page.tsx:106 | `replace` with a string pattern swaps the first occurrence found by `IndexOf` and leaves a string without one as it is; characterised on story segments by `ReplacePrefix` |
| `JsString.ReplacePrefix` | src/app/page.tsx:105-106 | when the segment starts with the pattern, `replace` removes exactly that prefix, because the first occurrence is at position 0 |
| `JsString.Split` | src/app/page.tsx:130 | `split("/")` returns at least one part and no part contains the separator |
| `JsString.JoinSplit` | src/app/page.tsx:130 | joining the split parts with the separator gives the pathname back, so the split loses nothing |
| `JsString.LastPartIsSuffix` | src/app/page.tsx:130 | the last split part is the suffix after the last separator |
| `JsString.FilterNonEmpty` | src/app/page.tsx:130 | `filter(Boolean)` keeps no empty part and returns no more parts than it was given |
| `JsString.FilterNonEmptyKeeps` | src/app/page.tsx:130 | a string is kept by the filter exactly when it is a part and is not empty |
| `JsString.FilterNonEmptyAppend` | src/app/page.tsx:130 | filtering one more part appends it exactly when it is non-empty |
| `JsString.FilterNonEmptyInOrder` | src/app/page.tsx:130 | the result is the parts at strictly increasing positions, covering every non-empty part, so `filter(Boolean)` keeps the order of the parts |
| `JsString.KeptInOrderSkip` | src/app/page.tsx:130 | an empty part appended to the input leaves the kept positions as they were |
| `JsString.KeptInOrderTake` | src/app/page.tsx:130 | a non-empty part appended to the input is kept last, at its own position |
| `Dashboard.CurrentSegment` | src/app/page.tsx:130 | `pathname.split("/").filter(Boolean).pop() \|\| "new"`; characterised by `CurrentSegmentIsLastComponent` |
| `Dashboard.SegmentSlashStep` | src/app/page.tsx:130 | a trailing `/` does not change the current segment |
| `Dashboard.SegmentCharStep` | src/app/page.tsx:130 | after a trailing non-`/` character, the segment is the last split part of the shorter path extended by that character |
| `Dashboard.SegmentCharStepAt` | src/app/page.tsx:130 | when the path ends in a non-`/` character, the segment is the non-empty, slash-free suffix after its last `/` |
| `Dashboard.SlashStepAt` | src/app/page.tsx:130 | a trailing `/` keeps an all-slash path all-slash, and keeps the last component where it was |
| `Dashboard.CurrentSegmentIsLastComponent` | src/app/page.tsx:130 | the current segment is non-empty and has no `/`; it is `"new"` when the path has no non-empty component; otherwise it is the last non-empty component: it starts the path or follows a `/`, and only `/` follows it |
| `Dashboard.RootIsNew` | src/app/page.tsx:94-130 | the initial pathname `"/"` selects the segment `"new"` |
| `Dashboard.SegmentOfChildPath` | src/app/page.tsx:130 | a path ending in `/` followed by a non-empty segment without `/` selects that segment |
| `Dashboard.DecodeStoryTitle` | src/app/page.tsx:106 | `segment.replace("story-", "")`; characterised by `DecodeStorySegment` and `StorySegmentRoundTrip` |
| `Dashboard.DecodeStorySegment` | src/app/page.tsx:105-106 | a segment that starts with `story-` decodes to the text after the prefix |
| `Dashboard.StorySegmentRoundTrip` | src/app/page.tsx:105-106 | the segment `"story-" + t` is a story segment, and it decodes back to `t` for every title `t` |
| `Dashboard.RenderSegmentContent` | src/app/page.tsx:103-127 | a segment is a story segment exactly when it yields a story page or "not found", so such segments never reach the switch; a story page shows the first story titled with the decoded text; "not found" means no story has that title; each listed segment shows its own view and only that segment does (`"new"` the new-story content, `"orders"`, `"traffic"`, `"stories"`, `"integrations"` their pages, `"add"` the creation form); the welcome page exactly for a non-story segment the switch does not list |
| `Dashboard.StorySegmentResolves` | src/app/page.tsx:105-108 | `"story-" + t` shows the story `find` returns for `t`, or "not found" when `find` returns nothing |
| `Dashboard.StoryLink` | src/app/page.tsx:157-161 | the entry of one story, with segment `story-${title}` and the title as its label; its routing is stated by `StoryLinksRoute` |
| `Dashboard.StoryLinks` | src/app/page.tsx:151-162 | the rebuilt children are the add entry followed by one entry per story, in list order, so there are 1 + the number of stories |
| `Dashboard.StoryLinksRoute` | src/app/page.tsx:151-162 | the add entry opens the creation form; the entry of the k-th story opens a story with that story's title |
| `Dashboard.FindStoriesItem` | src/app/page.tsx:135-148 | the effect's `find` returns the first page item whose segment is `"stories"`, or nothing when no item is one |
| `Dashboard.RebuildNavigation` | src/app/page.tsx:133-165 | the navigation keeps its length; without a `"stories"` item it is unchanged; otherwise that item gets the children rebuilt from the stories (1 + the number of stories of them) and every other item is unchanged |
| `Dashboard.FindStoriesItemIgnoresChildren` | src/app/page.tsx:135-151 | replacing the children of the `"stories"` item does not change which item the `find` selects |
| `Dashboard.RebuildIgnoresOldChildren` | src/app/page.tsx:151-162 | the rebuilt navigation does not depend on the children the `"stories"` item had before |
| `Dashboard.RebuildIdempotent` | src/app/page.tsx:132-166 | running the effect twice with the same stories gives the same navigation as running it once |
| `Dashboard.InitialNavigation` | src/app/page.tsx:21-60 | `NAVIGATION` item by item, with the `"stories"` item at position 5 and the add entry as its only child; its rebuild is stated by `InitialNavigationRebuild` |
| `Dashboard.InitialNavigationRebuild` | src/app/page.tsx:21-60 | the initial navigation has its `"stories"` item at position 5; the rebuild gives it 1 + the number of stories children; with no stories it leaves the initial navigation unchanged |
| `Dashboard.AppendedStoryRoute` | src/app/AddNewStory.tsx:14-31 | after an append, the new title's segment opens the new story when the title was new, and the older story with that title otherwise, because there is no duplicate check |
| `Dashboard.ContentChangeRoute` | src/app/StoryView.tsx:15-22 | after a content change, the story's segment opens a story with the new blocks, and it finds a story exactly when it did before |
| `Dashboard.StoryPathRoundTrip` | src/app/page.tsx:130-158 | a story entry's segment under a parent path is selected again as the current segment when the title has no `/` |
| `Dashboard.SlashTitleNeverRoundTrips` | src/app/page.tsx:130-158 | for every parent path and every title containing `/`, the story entry's path selects a segment other than the story's own |
| `Dashboard.SlashInTitleRoute` | src/app/page.tsx:130-158 | for the title `"a/b"` the entry's path `"/stories/story-a/b"` selects the segment `"b"` instead |
| `Dashboard.DashboardLayout.constructor` | src/app/page.tsx:94-97 | the page starts at the pathname `"/"` with the initial navigation |
| `Dashboard.DashboardLayout.Navigate` | src/app/page.tsx:85 | `navigate(p)` sets the pathname to `p` and leaves the navigation unchanged |
| `Dashboard.DashboardLayout.Segment` | src/app/page.tsx:130 | the segment of the current pathname is never empty and never holds a `/`, and it is `"new"` for a path of slashes only |
| `Dashboard.DashboardLayout.Content` | src/app/page.tsx:171 | the page shows the view of the current segment; at the root `"/"` that is the new-story content |
| `Dashboard.DashboardLayout.SyncNavigation` | src/app/page.tsx:132-166 | the effect rewrites the navigation to the rebuilt navigation for the current stories and leaves the pathname unchanged |
| `Stories.NewStory` | src/app/AddNewStory.tsx:17-29 | the skeleton of a new story: a level-1 heading holding the title, then a paragraph with one empty text span; appended by `AddThisStory` and found by `FindByTitleAppend` |
| `Stories.FindByTitle` | src/app/page.tsx:107 | `find` returns the first story with the title; it returns nothing exactly when no story has that title |
| `Stories.FirstWithTitleShift` | src/app/page.tsx:107 | the first story with a title in the tail of the list, shifted by one, is the first in the whole list when the head has another title |
| `Stories.FindByTitleAppend` | src/app/AddNewStory.tsx:15-31 | appending a story never changes what an existing title finds; a title that finds nothing then finds the appended story exactly when it has that title |
| `Stories.UpdateContent` | src/app/StoryView.tsx:17-19 | the updated list has the same length and the same title at every position; every story with the title gets the editor blocks as content, not only the first; every other story is unchanged |
| `Stories.UpdateContentKeepsTitles` | src/app/StoryView.tsx:17-19 | the sequence of titles is the same before and after the update |
| `Stories.UpdateContentIdempotent` | src/app/StoryView.tsx:17-20 | applying the update twice with the same blocks equals applying it once |
| `Stories.FindAfterUpdate` | src/app/StoryView.tsx:17-19 | after the update, the title finds a story with that title and the new blocks, and it finds one exactly when it did before |
| `Stories.StoryStore.constructor` | src/app/AddNewStory.tsx:11 | the store holds the value read from local storage |
| `Stories.StoryStore.Save` | src/app/StoryView.tsx:20 | `setStories` overwrites the stored list with the new one |
| `AddNewStoryComponent.AddNewStory.constructor` | src/app/AddNewStory.tsx:9-11 | the component starts on the choice screen with an empty title |
| `AddNewStoryComponent.AddNewStory.GenerateWithAi` | src/app/AddNewStory.tsx:87-93 | from the choice screen, "Generate with AI" moves to the AI screen and keeps the title |
| `AddNewStoryComponent.AddNewStory.WriteMyself` | src/app/AddNewStory.tsx:94-100 | from the choice screen, "Write myself" moves to the manual screen and keeps the title |
| `AddNewStoryComponent.AddNewStory.Back` | src/app/AddNewStory.tsx:46 | "Back" on the AI screen (line 46) or the manual screen (line 71) returns to the choice screen and keeps the title |
| `AddNewStoryComponent.AddNewStory.EditTitle` | src/app/AddNewStory.tsx:57-62 | typing in the title field sets the title and keeps the mode |
| `AddNewStoryComponent.AddDisabled` | src/app/AddNewStory.tsx:67 | the add button is disabled exactly when the title is white space only (its trim is empty) |
| `AddNewStoryComponent.AddNewStory.AddThisStory` | src/app/AddNewStory.tsx:13-35 | when the trimmed title is empty, which is exactly when the button is disabled (line 67), the stories, title and mode are unchanged; otherwise the old list is a prefix, and exactly one story is appended, titled with the trimmed title and holding a level-1 heading with that text plus an empty paragraph; then the title is `""` and the mode is `choose`; every mode change is one of the four button transitions |
| `StoryViewComponent.StoryView.constructor` | src/app/StoryView.tsx:9 | the view holds the `story` prop it was given and the shared store |
| `StoryViewComponent.StoryView.HandleContentChange` | src/app/StoryView.tsx:15-22 | without a story nothing is written; with a story the store becomes the content update of the old list by the story's title with the editor blocks |

## Left out

- src/components/ThemeRegistry.tsx is not part of this model. It is a style-cache and colour-scheme wrapper over library hooks and a DOM observer.
- src/app/layout.tsx is not part of this model. It holds static metadata and an HTML shell.
- Rendering: JSX, the Material UI and Toolpad components, icons (navigation entries carry no icon) and the theme and breakpoint constants.
- The block editor: its blocks are an opaque parameter of `HandleContentChange`, and block editing and the block schema are not modelled.
- `useLocalStorage`: JSON (de)serialisation and its fallback to `[]` are not modelled. The store is a plain sequence field, created from the value read on mount.
- The `routerAtom` effect (src/app/page.tsx:99-101): it publishes the router to a global atom and is library wiring.
- `window.history.back()` (src/app/StoryView.tsx:35): browser navigation.
- `searchParams` and the `URL` case of `navigate`: `String(path)` is taken to be the path string itself.
- Closures over stale state: each handler reads the store as it is when the handler runs, not the value captured at render time.
- `Stories.NewStory`: the paragraph block of the skeleton has no `props` key in the source (src/app/AddNewStory.tsx:25-28); the model gives every block a `props` map and writes `map[]` for an absent one, so it does not distinguish an absent `props` from an empty one in the stored JSON.
- `Dashboard.DashboardLayout.SyncNavigation` updates the navigation as a value. `[...prevNav]` is a shallow copy, so the source also mutates the item object of the previous navigation state. Because `useState(NAVIGATION)` (src/app/page.tsx:97) starts from the module-level constant itself, the first run of the effect mutates `NAVIGATION[5]`; a remounted page then starts with the children of the last rebuild. That aliasing is not modelled, so `Dashboard.DashboardLayout.constructor`'s `navigation == InitialNavigation` holds only for the first mount.
- When a story has no match in the list, `HandleContentChange` still writes an equal list. React re-renders and local-storage events caused by the write are not modelled.
- Strings are sequences of Unicode characters, not UTF-16 code units. `trim` removes whole characters from the ECMA-262 white-space set.
- The code has no duplicate-title rejection, emoji stripping, first-block-heading enforcement, title derivation or rename-on-save, so the model has none either: src/app/AddNewStory.tsx appends without a duplicate check, and src/app/StoryView.tsx writes the editor blocks unchanged under the old title.
- Routing from a navigation entry to a pathname is done by the navigation framework. `StoryPathRoundTrip`, `SlashTitleNeverRoundTrips` and `SlashInTitleRoute` assume it joins the parent path and the child segment with `/` and passes the segment on verbatim, without percent-encoding. The framework's code is not part of this model; `navigate` also accepts a `URL` (src/app/page.tsx:85), whose string form percent-encodes characters such as spaces, so a title like `My story` would then arrive as `story-My%20story` and not be found.
