/**
 * The "Add a new story" component (src/app/AddNewStory.tsx): a three-screen
 * state machine (choose, AI stub, manual title entry) over the state slots
 * `mode` and `title`, writing to the shared story store.
 */
module AddNewStoryComponent {
  import opened JsString
  import opened Stories

  datatype Mode = Choose | Ai | Manual

  /** The only mode changes the buttons perform: from the choice screen to
      one of the two others, and back. */
  predicate ModeChange(from: Mode, to: Mode) {
    from == to || (from == Choose && to != Choose) || (from != Choose && to == Choose)
  }

  /** The "Add this story" button is disabled exactly when the trimmed title
      is empty, that is, when the title is white space only. */
  predicate AddDisabled(title: string): (b: bool)
    ensures b <==> AllSpaceIn(title, 0, |title|)
  {
    Trim(title) == ""
  }

  class AddNewStory {
    var mode: Mode
    var title: string
    const store: StoryStore

    /** A freshly mounted component: the choice screen and an empty title. */
    constructor (store: StoryStore)
      ensures mode == Choose && title == "" && this.store == store
    {
      mode := Choose;
      title := "";
      this.store := store;
    }

    /** "Generate with AI", shown on the choice screen. */
    method GenerateWithAi()
      requires mode == Choose
      modifies this
      ensures mode == Ai && title == old(title)
      ensures ModeChange(old(mode), mode)
    {
      mode := Ai;
    }

    /** "Write myself", shown on the choice screen. */
    method WriteMyself()
      requires mode == Choose
      modifies this
      ensures mode == Manual && title == old(title)
      ensures ModeChange(old(mode), mode)
    {
      mode := Manual;
    }

    /** "Back", shown on the AI screen and on the manual screen. The title
        typed so far is kept. */
    method Back()
      requires mode == Ai || mode == Manual
      modifies this
      ensures mode == Choose && title == old(title)
      ensures ModeChange(old(mode), mode)
    {
      mode := Choose;
    }

    /** Typing into the "Story Title" field of the manual screen. */
    method EditTitle(text: string)
      requires mode == Manual
      modifies this
      ensures title == text && mode == old(mode)
    {
      title := text;
    }

    /** `handleAddStory`, behind "Add this story". With an empty trimmed
        title nothing changes. Otherwise the skeleton story for the trimmed
        title is appended (even when a story with that title exists), the
        title field is cleared and the choice screen comes back. */
    method AddThisStory()
      requires mode == Manual
      modifies this, store
      ensures AddDisabled(old(title)) ==>
        store.stories == old(store.stories) && title == old(title) && mode == old(mode)
      ensures !AddDisabled(old(title)) ==>
        && store.stories == old(store.stories) + [NewStory(Trim(old(title)))]
        && title == "" && mode == Choose
      ensures ModeChange(old(mode), mode)
    {
      var t := Trim(title);
      if t != "" {
        store.Save(store.stories + [NewStory(t)]);
        title := "";
        mode := Choose;
      }
    }
  }
}
