/**
 * The story records kept under the local-storage key "my-stories", and the
 * two list transformations the components apply to them: appending a new
 * story (src/app/AddNewStory.tsx) and replacing the content of the stories
 * with a given title (src/app/StoryView.tsx).
 */
module Stories {
  import opened Wrappers

  /** An inline content item of a block: `{type: "text", text, styles}`. */
  datatype InlineContent = InlineContent(kind: string, text: string, styles: map<string, string>)

  /** A top-level editor block: its `type` tag, its `props` (a heading's
      `level`) and its inline content. A block without `props` has `map[]`. */
  datatype Block = Block(kind: string, props: map<string, int>, content: seq<InlineContent>)

  datatype Story = Story(title: string, content: seq<Block>)

  /** The skeleton document of a story created with title `t`: a level-1
      heading whose only text span is `t`, then a paragraph with one empty
      text span. */
  function NewStory(t: string): Story {
    Story(t, [
      Block("heading", map["level" := 1], [InlineContent("text", t, map[])]),
      Block("paragraph", map[], [InlineContent("text", "", map[])])
    ])
  }

  /** The titles of the stories, in list order. */
  function Titles(stories: seq<Story>): (ts: seq<string>)
    ensures |ts| == |stories|
    ensures forall i :: 0 <= i < |stories| ==> ts[i] == stories[i].title
  {
    seq(|stories|, i requires 0 <= i < |stories| => stories[i].title)
  }

  /** `stories[i]` is the first story titled `t`. */
  ghost predicate FirstWithTitle(stories: seq<Story>, t: string, i: int) {
    && 0 <= i < |stories| && stories[i].title == t
    && forall j :: 0 <= j < i ==> stories[j].title != t
  }

  /** `stories.find((s) => s.title === t)`. */
  function FindByTitle(stories: seq<Story>, t: string): (r: Option<Story>)
    ensures r.Some? ==> exists i :: FirstWithTitle(stories, t, i) && stories[i] == r.value
    ensures r.None? <==> forall i :: 0 <= i < |stories| ==> stories[i].title != t
  {
    if stories == [] then None
    else if stories[0].title == t then
      assert FirstWithTitle(stories, t, 0);
      Some(stories[0])
    else
      var r := FindByTitle(stories[1..], t);
      FirstWithTitleShift(stories, t, r);
      r
  }

  lemma FirstWithTitleShift(stories: seq<Story>, t: string, r: Option<Story>)
    requires stories != [] && stories[0].title != t
    requires r.Some? ==> exists i :: FirstWithTitle(stories[1..], t, i) && stories[1..][i] == r.value
    requires r.None? <==> forall i :: 0 <= i < |stories| - 1 ==> stories[1..][i].title != t
    ensures r.Some? ==> exists i :: FirstWithTitle(stories, t, i) && stories[i] == r.value
    ensures r.None? <==> forall i :: 0 <= i < |stories| ==> stories[i].title != t
  {
    if r.Some? {
      var i :| FirstWithTitle(stories[1..], t, i) && stories[1..][i] == r.value;
      assert FirstWithTitle(stories, t, i + 1);
    } else {
      assert forall i :: 1 <= i < |stories| ==> stories[i] == stories[1..][i - 1];
    }
  }

  /** Appending a story never changes what an existing title resolves to,
      and a title that was absent resolves to the appended story when it
      carries that title. */
  lemma {:induction false} FindByTitleAppend(stories: seq<Story>, s: Story, t: string)
    ensures FindByTitle(stories + [s], t)
         == if FindByTitle(stories, t).Some? then FindByTitle(stories, t)
            else if s.title == t then Some(s) else None
  {
    if stories != [] {
      assert (stories + [s])[1..] == stories[1..] + [s];
      FindByTitleAppend(stories[1..], s, t);
    }
  }

  /** The list `handleContentChange` writes: every story titled `t` gets
      `blocks` as its content, every other story is kept as it is. */
  function UpdateContent(stories: seq<Story>, t: string, blocks: seq<Block>): (r: seq<Story>)
    ensures |r| == |stories|
    ensures forall i :: 0 <= i < |stories| ==> r[i].title == stories[i].title
    ensures forall i :: 0 <= i < |stories| && stories[i].title == t ==> r[i].content == blocks
    ensures forall i :: 0 <= i < |stories| && stories[i].title != t ==> r[i] == stories[i]
  {
    seq(|stories|, i requires 0 <= i < |stories| =>
      if stories[i].title == t then stories[i].(content := blocks) else stories[i])
  }

  /** The update keeps the list of titles, so every route and every
      navigation entry stays the same. */
  lemma UpdateContentKeepsTitles(stories: seq<Story>, t: string, blocks: seq<Block>)
    ensures Titles(UpdateContent(stories, t, blocks)) == Titles(stories)
  {
  }

  /** Writing the same blocks twice leaves the list as writing them once. */
  lemma UpdateContentIdempotent(stories: seq<Story>, t: string, blocks: seq<Block>)
    ensures UpdateContent(UpdateContent(stories, t, blocks), t, blocks)
         == UpdateContent(stories, t, blocks)
  {
  }

  /** After the update, title `t` resolves to a story titled `t` whose
      content is the new blocks, and it resolves at all exactly when it did
      before. */
  lemma {:induction false} FindAfterUpdate(stories: seq<Story>, t: string, blocks: seq<Block>)
    ensures FindByTitle(UpdateContent(stories, t, blocks), t)
         == if FindByTitle(stories, t).Some? then Some(Story(t, blocks)) else None
  {
    var r := UpdateContent(stories, t, blocks);
    if FindByTitle(stories, t).Some? {
      var i :| FirstWithTitle(stories, t, i);
      assert FirstWithTitle(r, t, i);
      var f := FindByTitle(r, t);
      var j :| FirstWithTitle(r, t, j) && r[j] == f.value;
      assert i == j;
    }
  }

  /** The persisted collection: the value under the local-storage key
      "my-stories", shared by every component that reads or writes it. */
  class StoryStore {
    var stories: seq<Story>

    /** The store as read on mount (`[]` when nothing is stored). */
    constructor (stored: seq<Story>)
      ensures stories == stored
    {
      stories := stored;
    }

    /** `setStories(s)`: the new value overwrites the old one. */
    method Save(s: seq<Story>)
      modifies this
      ensures stories == s
    {
      stories := s;
    }
  }
}
