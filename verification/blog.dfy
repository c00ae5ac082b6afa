/** The admin gate and the blog-post record of app.py: who may author, what
    a newly created post holds, and which fields an edit overwrites. */
module Blog {
  import opened Slugs

  /** The only account that may author posts. */
  const AdminId := 1

  /** The HTTP status of a refused request. */
  const Forbidden := 403

  /** The visitor behind a request: nobody logged in, or a logged-in user
      with a numeric id. An anonymous visitor has no id at all. */
  datatype CurrentUser = Anonymous | LoggedIn(id: int)

  /** What the `admin_only` decorator does with a request: run the wrapped
      view, or abort with an HTTP status. */
  datatype Gate = Proceed | Abort(status: int)

  /** `admin_only`: the view runs exactly for the logged-in user with id 1;
      every other request is aborted with 403. */
  function AdminOnly(user: CurrentUser): (g: Gate)
    ensures g == Proceed <==> user == LoggedIn(AdminId)
    ensures g != Proceed ==> g == Abort(403)
  {
    if !user.LoggedIn? || user.id != AdminId then Abort(Forbidden) else Proceed
  }

  /** The validated fields of the post form, as `add_new_post` and
      `edit_post` read them. */
  datatype PostForm = PostForm(title: string, subtitle: string, imgUrl: string, body: string)

  /** A row of the blog_posts table, updated in place by `edit_post`. */
  class BlogPost {
    var id: int
    var authorId: int
    var title: string
    var subtitle: string
    var date: string
    var body: string
    var imgUrl: string
    var slug: string

    /** The record `add_new_post` builds: the form's fields, the current
        user as author, today's date, and the slug derived from the title.
        The database assigns `id` on insert and the request's clock gives
        `today`; both arrive here as parameters. */
    constructor Create(id: int, form: PostForm, authorId: int, today: string)
      ensures this.id == id && this.authorId == authorId && date == today
      ensures title == form.title && subtitle == form.subtitle
      ensures imgUrl == form.imgUrl && body == form.body
      ensures slug == Slug(form.title)
      ensures IsSlug(slug)
    {
      this.id := id;
      this.authorId := authorId;
      title := form.title;
      subtitle := form.subtitle;
      body := form.body;
      imgUrl := form.imgUrl;
      date := today;
      slug := Slug(form.title);
    }

    /** `edit_post`: title, subtitle, image URL and body are overwritten
        from the form; the permalink slug, the date, the author and the id
        are kept, so the slug is not re-derived from the new title. */
    method Edit(form: PostForm)
      modifies this`title, this`subtitle, this`imgUrl, this`body
      ensures title == form.title && subtitle == form.subtitle
      ensures imgUrl == form.imgUrl && body == form.body
      ensures slug == old(slug) && date == old(date)
      ensures authorId == old(authorId) && id == old(id)
    {
      title := form.title;
      subtitle := form.subtitle;
      imgUrl := form.imgUrl;
      body := form.body;
    }
  }

  /** A post whose title is edited keeps its original permalink, which then
      no longer matches the slug of its title. */
  method RetitledPostKeepsSlug() returns (post: BlogPost)
    ensures post.title == "Goodbye, World!" && post.slug == "hello-world"
    ensures post.slug != Slug(post.title)
  {
    post := new BlogPost.Create(1, PostForm("Hello, World!", "", "", ""), AdminId, "");
    assert post.slug == "hello-world" by {
      SlugOfHelloWorld("Hello, World!");
    }
    post.Edit(PostForm("Goodbye, World!", "", "", ""));
    assert Slug(post.title) == "goodbye-world" by {
      SlugOfGoodbyeWorld(post.title);
    }
  }

  /** "Goodbye, World!" becomes "goodbye-world". */
  lemma {:induction false} SlugOfGoodbyeWorld(title: string)
    requires title == "Goodbye, World!"
    ensures Slug(title) == "goodbye-world"
  {
    assert Slug(title) == Lowercase("Goodbye") + ['-'] + Lowercase("World") by {
      assert title == "Goodbye" + ", " + "World" + "!";
      SlugOfTwoWords("Goodbye", ", ", "World", "!");
    }
    assert Lowercase("Goodbye") == "goodbye";
    assert Lowercase("World") == "world";
  }
}
