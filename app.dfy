/** The application shell (src/App.tsx): the theme choice, the locally
    cached post list and the view state machine. Every handler runs to
    completion in one step; the outcome of the request it makes is a
    parameter. */
module App {
  import opened Wrappers
  import opened Posts

  datatype View = Home | EditorView | Detail

  /** `savedTheme === 'dark' || (!savedTheme && prefersDark)`: a missing
      or empty stored theme defers to the system preference. */
  predicate ShouldUseDark(saved: Option<string>, prefersDark: bool) {
    saved == Some("dark") || ((saved.None? || saved.value == "") && prefersDark)
  }

  /** The stored theme name: `'dark'` or `'light'`. */
  function ThemeName(dark: bool): (r: string)
    ensures r != ""
    ensures r == "dark" <==> dark
  {
    if dark then "dark" else "light"
  }

  /** A stored, non-empty theme decides alone: the system preference is
      consulted only when nothing was stored. */
  lemma StoredThemeWins(s: string, prefersDark: bool)
    requires s != ""
    ensures ShouldUseDark(Some(s), prefersDark) <==> s == "dark"
  {
  }

  /** What a toggle stores, read back by the start-up rule, is the mode the
      toggle set, whatever the system prefers. */
  lemma ToggleRoundTrip(dark: bool, prefersDark: bool)
    ensures ShouldUseDark(Some(ThemeName(dark)), prefersDark) == dark
  {
    StoredThemeWins(ThemeName(dark), prefersDark);
  }

  /** `blogs.map(blog => blog.id === id ? updated : blog)` */
  function ReplaceById(blogs: seq<Post>, id: string, updated: Post): (r: seq<Post>)
    ensures |r| == |blogs|
    ensures forall k :: 0 <= k < |r| && blogs[k].id == id ==> r[k] == updated
    ensures forall k :: 0 <= k < |r| && blogs[k].id != id ==> r[k] == blogs[k]
  {
    seq(|blogs|, k requires 0 <= k < |blogs| => if blogs[k].id == id then updated else blogs[k])
  }

  /** Replacing an id that is not cached changes nothing. */
  lemma ReplaceByIdAbsent(blogs: seq<Post>, id: string, updated: Post)
    requires forall k :: 0 <= k < |blogs| ==> blogs[k].id != id
    ensures ReplaceById(blogs, id, updated) == blogs
  {
  }

  function Ids(blogs: seq<Post>): (r: seq<string>)
    ensures |r| == |blogs| && forall k :: 0 <= k < |r| ==> r[k] == blogs[k].id
  {
    seq(|blogs|, k requires 0 <= k < |blogs| => blogs[k].id)
  }

  /** The server answers an update with a post of the same id, so the list
      keeps its ids in their order. */
  lemma ReplaceByIdKeepsIds(blogs: seq<Post>, id: string, updated: Post)
    requires updated.id == id
    ensures Ids(ReplaceById(blogs, id, updated)) == Ids(blogs)
  {
  }

  /** `blogs.filter(b => b.id !== id)` */
  function RemoveById(blogs: seq<Post>, id: string): (r: seq<Post>)
    ensures |r| <= |blogs|
    ensures forall p :: p in r <==> p in blogs && p.id != id
  {
    if blogs == [] then []
    else (if blogs[0].id == id then [] else [blogs[0]]) + RemoveById(blogs[1..], id)
  }

  /** The filter keeps the other posts in their order: it distributes over
      concatenation. */
  lemma {:induction false} RemoveByIdAppend(a: seq<Post>, b: seq<Post>, id: string)
    ensures RemoveById(a + b, id) == RemoveById(a, id) + RemoveById(b, id)
  {
    if a == [] {
      assert a + b == b;
    } else {
      assert (a + b)[0] == a[0] && (a + b)[1..] == a[1..] + b;
      RemoveByIdAppend(a[1..], b, id);
    }
  }

  /** Removing an id that is not cached changes nothing. */
  lemma {:induction false} RemoveByIdAbsent(blogs: seq<Post>, id: string)
    requires forall k :: 0 <= k < |blogs| ==> blogs[k].id != id
    ensures RemoveById(blogs, id) == blogs
  {
    if blogs != [] {
      RemoveByIdAbsent(blogs[1..], id);
    }
  }

  /** Deleting a post just created restores the list as it was, when the
      new id was not cached before. */
  lemma CreateThenDelete(blogs: seq<Post>, p: Post)
    requires forall k :: 0 <= k < |blogs| ==> blogs[k].id != p.id
    ensures RemoveById([p] + blogs, p.id) == blogs
  {
    RemoveByIdAppend([p], blogs, p.id);
    RemoveByIdAbsent(blogs, p.id);
    assert RemoveById([p], p.id) == [] + RemoveById([], p.id);
  }

  /** What the main area shows. */
  datatype Screen = Loading | PostList | EditorScreen(initial: Option<Post>) | DetailScreen(post: Post) | Nothing

  /** The main area: the loading panel while a request runs, otherwise the
      current view; the detail view needs a selected post. */
  function Shown(view: View, loading: bool, selected: Option<Post>, editing: Option<Post>): (r: Screen)
    ensures r.Loading? <==> loading
    ensures r.PostList? <==> !loading && view == Home
    ensures r.EditorScreen? <==> !loading && view == EditorView
    ensures r.EditorScreen? ==> r.initial == editing
    ensures r.DetailScreen? <==> !loading && view == Detail && selected.Some?
    ensures r.DetailScreen? ==> selected == Some(r.post)
  {
    if loading then Loading
    else match view
      case Home => PostList
      case EditorView => EditorScreen(editing)
      case Detail => if selected.Some? then DetailScreen(selected.value) else Nothing
  }

  class AppState {
    var view: View
    var blogs: seq<Post>
    var selected: Option<Post>
    var editing: Option<Post>
    var loading: bool
    var dark: bool
    var storedTheme: Option<string>

    /** The state after mounting and the theme effect: home, nothing cached,
      the theme taken from storage or the system preference. */
    constructor (saved: Option<string>, prefersDark: bool)
      ensures view == Home && blogs == [] && selected.None? && editing.None? && !loading
      ensures dark == ShouldUseDark(saved, prefersDark) && storedTheme == saved
    {
      view := Home;
      blogs := [];
      selected := None;
      editing := None;
      loading := false;
      dark := ShouldUseDark(saved, prefersDark);
      storedTheme := saved;
    }

    /** `toggleTheme`: flip the mode and store its name. */
    method ToggleTheme()
      modifies this
      ensures dark == !old(dark) && storedTheme == Some(ThemeName(dark))
      ensures view == old(view) && blogs == old(blogs) && selected == old(selected)
      ensures editing == old(editing) && loading == old(loading)
    {
      dark := !dark;
      storedTheme := Some(ThemeName(dark));
    }

    /** `loadBlogs`, run when the view becomes home: the fetched list, or
      the empty list when the request failed. */
    method LoadBlogs(fetched: Option<seq<Post>>)
      modifies this
      ensures blogs == (if fetched.Some? then fetched.value else []) && !loading
      ensures view == old(view) && selected == old(selected) && editing == old(editing)
      ensures dark == old(dark) && storedTheme == old(storedTheme)
    {
      blogs := if fetched.Some? then fetched.value else [];
      loading := false;
    }

    /** `handleSaveBlog`: an edit replaces the cached post by the server's
      answer and ends the edit, a new post goes first; either way the view
      becomes home. A failed request changes nothing but the loading flag. */
    method SaveBlog(answer: Option<Post>)
      modifies this
      ensures !loading && selected == old(selected) && dark == old(dark) && storedTheme == old(storedTheme)
      ensures answer.None? ==> view == old(view) && blogs == old(blogs) && editing == old(editing)
      ensures answer.Some? && old(editing).Some? ==>
                blogs == ReplaceById(old(blogs), old(editing).value.id, answer.value) && editing.None? && view == Home
      ensures answer.Some? && old(editing).None? ==>
                blogs == [answer.value] + old(blogs) && editing.None? && view == Home
    {
      if answer.Some? {
        if editing.Some? {
          blogs := ReplaceById(blogs, editing.value.id, answer.value);
          editing := None;
        } else {
          blogs := [answer.value] + blogs;
        }
        view := Home;
      }
      loading := false;
    }

    /** `handleDeleteBlog`: nothing without confirmation; a successful
      delete drops the post's id from the cache, goes home and clears the
      selection. */
    method DeleteBlog(post: Post, confirmed: bool, ok: bool)
      modifies this
      ensures editing == old(editing) && dark == old(dark) && storedTheme == old(storedTheme)
      ensures !confirmed ==> view == old(view) && blogs == old(blogs) && selected == old(selected) && loading == old(loading)
      ensures confirmed ==> !loading
      ensures confirmed && !ok ==> view == old(view) && blogs == old(blogs) && selected == old(selected)
      ensures confirmed && ok ==> blogs == RemoveById(old(blogs), post.id) && view == Home && selected.None?
    {
      if !confirmed {
        return;
      }
      if ok {
        blogs := RemoveById(blogs, post.id);
        view := Home;
        selected := None;
      }
      loading := false;
    }

    /** `handleBlogClick` */
    method BlogClick(post: Post)
      modifies this
      ensures selected == Some(post) && view == Detail
      ensures blogs == old(blogs) && editing == old(editing) && loading == old(loading)
      ensures dark == old(dark) && storedTheme == old(storedTheme)
    {
      selected := Some(post);
      view := Detail;
    }

    /** `handleEditBlog` */
    method EditBlog(post: Post)
      modifies this
      ensures editing == Some(post) && view == EditorView
      ensures blogs == old(blogs) && selected == old(selected) && loading == old(loading)
      ensures dark == old(dark) && storedTheme == old(storedTheme)
    {
      editing := Some(post);
      view := EditorView;
    }

    /** `handleNewPost` */
    method NewPost()
      modifies this
      ensures editing.None? && view == EditorView
      ensures blogs == old(blogs) && selected == old(selected) && loading == old(loading)
      ensures dark == old(dark) && storedTheme == old(storedTheme)
    {
      editing := None;
      view := EditorView;
    }

    /** `handleCancel` */
    method Cancel()
      modifies this
      ensures editing.None? && view == Home
      ensures blogs == old(blogs) && selected == old(selected) && loading == old(loading)
      ensures dark == old(dark) && storedTheme == old(storedTheme)
    {
      editing := None;
      view := Home;
    }

    /** `handleBack` */
    method Back()
      modifies this
      ensures selected.None? && view == Home
      ensures blogs == old(blogs) && editing == old(editing) && loading == old(loading)
      ensures dark == old(dark) && storedTheme == old(storedTheme)
    {
      selected := None;
      view := Home;
    }

    /** The title in the header goes home and changes nothing else. */
    method LogoClick()
      modifies this
      ensures view == Home
      ensures blogs == old(blogs) && selected == old(selected) && editing == old(editing)
      ensures loading == old(loading) && dark == old(dark) && storedTheme == old(storedTheme)
    {
      view := Home;
    }
  }
}
