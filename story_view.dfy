/**
 * The story editing view (src/app/StoryView.tsx): it receives the story to
 * show as a prop and, on every change notification of the editor, writes
 * the editor's current top-level blocks into the shared store.
 */
module StoryViewComponent {
  import opened Wrappers
  import opened Stories

  class StoryView {
    /** The `story` prop; `None` stands for `undefined`. */
    const story: Option<Story>
    const store: StoryStore

    constructor (story: Option<Story>, store: StoryStore)
      ensures this.story == story && this.store == store
    {
      this.story := story;
      this.store := store;
    }

    /** `handleContentChange`, given the editor's `topLevelBlocks`. Without a
        story nothing is written; otherwise every stored story whose title is
        the prop's title gets `blocks` as its content and the list is saved. */
    method HandleContentChange(blocks: seq<Block>)
      modifies store
      ensures story.None? ==> store.stories == old(store.stories)
      ensures story.Some? ==> store.stories == UpdateContent(old(store.stories), story.value.title, blocks)
    {
      if story.Some? {
        store.Save(UpdateContent(store.stories, story.value.title, blocks));
      }
    }
  }
}
