# wonderfloyd blog: slugs, admin gate, post records and the navbar

A Dafny model of the logic in a small Flask blog that is not framework
glue:

- `slugs.dfy` (module `Slugs`): `generate_slug` of `app.py`, which turns a
  post title into its permalink: lower-case the title, replace every
  maximal run of characters that are not letters or digits (the regular
  expression `[\W_]+`, underscore included) by one hyphen, and strip
  hyphens from both ends. Besides the function as the code computes it
  (`ReplaceRuns` for the substitution, `Strip` for `strip('-')`), the module
  defines an independent description, the title's words (maximal runs of
  letters and digits) joined by single hyphens, and proves the two equal.
  The shape of every slug, idempotence, the empty-slug case and worked
  examples follow.
- `blog.dfy` (module `Blog`): the `admin_only` decorator as a gate that
  lets a request through or aborts it with 403, and the `blog_posts` row
  as a class: its constructor is the record `add_new_post` builds, and
  `Edit` is the in-place update of `edit_post`, which overwrites four fields
  and keeps the slug.
- `navbar.dfy` (module `Navbar`): the scroll listener of
  `static/js/scripts.js` as a state machine over the remembered scroll
  position and the bar's two classes `is-fixed` and `is-visible`, with the
  bar height read once at load time. `Next` is the transition on one event,
  `Replay` folds it over a sequence of events, and the class `MainNav` holds
  the listener's state and runs one event in place with `Step`.

## Model

| member | source | states |
|---|---|---|
| `Slugs.Lower` | app.py:74 | lower-casing a character keeps it a letter/digit or a separator exactly as before, never yields an upper-case letter, and leaves separators, lower-case letters and digits alone |
| `Slugs.Lowercase` | app.py:74 | `title.lower()` has the title's length and lower-cases each character in place |
| `Slugs.HyphenIsSeparator` | app.py:74 | the hyphen that replaces separator runs is itself in the class `[\W_]` |
| `Slugs.ReplaceRuns` | app.py:74 | `re.sub(r'[\W_]+', '-', …)` leaves only hyphens, letters and digits, never two hyphens in a row, is empty only for the empty string, and starts with the input's first character if that is a letter or digit, else with a hyphen |
| `Slugs.StripLeading` | app.py:75 | `lstrip('-')` keeps a suffix that does not start with a hyphen and drops only hyphens |
| `Slugs.StripTrailing` | app.py:75 | `rstrip('-')` keeps a prefix that does not end with a hyphen and drops only hyphens |
| `Slugs.Strip` | app.py:75 | `strip('-')` keeps a contiguous middle part with a hyphen at neither end, and everything it drops on either side is a hyphen |
| `Slugs.Slug` | app.py:73-75 | every slug holds only hyphens and lower-case letters and digits, never starts or ends with a hyphen, and never has two hyphens in a row |
| `Slugs.StripReplaceRunsIsJoin` | app.py:74-75 | substituting one hyphen for each run of separators and then stripping hyphens gives exactly the string's words joined by single hyphens |
| `Slugs.SlugIsJoinedWords` | app.py:73-75 | the slug of a title is its lower-cased words, in order, joined by single hyphens |
| `Slugs.WordsEmptyIff` | app.py:74 | a string has no words exactly when it has no letter or digit |
| `Slugs.SlugEmptyIff` | app.py:74-75 | the slug is empty exactly when the title has no letter or digit (only punctuation, underscores or white space) |
| `Slugs.SlugFixesSlugs` | app.py:73-75 | a string already shaped like a slug is its own slug |
| `Slugs.SlugIdempotent` | app.py:73-75 | deriving a slug from a slug changes nothing |
| `Slugs.SlugOfTwoWords` | app.py:74-75 | a word, any run of separators, a word and optional trailing separators give the two lower-cased words joined by one hyphen |
| `Slugs.SlugOfHelloWorld` | app.py:73-75 | "Hello, World!" becomes "hello-world" |
| `Slugs.DistinctTitlesCanCollide` | app.py:73-75 | two different titles ("Hello World", "hello-world") can have the same slug, so slug uniqueness rests on the table's unique constraint |
| `Blog.AdminOnly` | app.py:68-70 | the wrapped view runs exactly for a logged-in user with id 1; anonymous visitors and every other user are aborted with 403 |
| `Blog.BlogPost.Create` | app.py:119-127 | a new post takes title, subtitle, body and image URL from the form, the current user as author, today's date, and the slug of its title, which has slug shape |
| `Blog.BlogPost.Edit` | app.py:144-147 | an edit overwrites exactly title, subtitle, image URL and body; slug, date, author and id keep their values |
| `Blog.RetitledPostKeepsSlug` | app.py:144-147 | after a title edit the post keeps its first slug, which need not be the slug of its new title: retitling "Hello, World!" to "Goodbye, World!" keeps "hello-world", while the new title's slug is "goodbye-world" |
| `Navbar.Next` | static/js/scripts.js:12-28 | after an event the remembered position is the event's; a visible bar is always fixed; scrolling down or standing still hides the bar and fixes it exactly if it was fixed or the page is past the header; scrolling up shows a fixed bar away from the top and otherwise hides and unfixes it |
| `Navbar.ReplayConsistent` | static/js/scripts.js:11-29 | over any sequence of events the bar stays never-visible-unless-fixed and the remembered position is the last event's |
| `Navbar.ScrollingDown` | static/js/scripts.js:21-28 | while the page only scrolls down the bar stays hidden, is never unfixed, and is fixed exactly when it was or some event passed the header |
| `Navbar.MainNav.constructor` | static/js/scripts.js:7-9 | on load the position is 0, the bar has neither class, and the header height is the bar's height, fixed from then on |
| `Navbar.MainNav.Step` | static/js/scripts.js:11-29 | one run of the listener updates position and classes in place as `Next` says, and leaves the bar never visible unless fixed |

## Left out

- Unicode: letters and digits (`IsAlnum`) and lower-casing (`Lower`) are those of ASCII. Python's `\W` and `str.lower` follow the Unicode tables, and `str.lower` can even lengthen a string. The general lemmas use the ASCII tables only through two facts, both stated as contracts: the contract of `Lower`, and `HyphenIsSeparator`. Only the worked examples compute with the tables.
- Routing, template rendering, redirects, flash messages and the `abort` machinery of `app.py`; the gate returns the status instead of raising.
- Persistence: the SQLAlchemy models, `session.add`/`commit`/`delete`, `get_or_404`, and the unique constraints on title and slug. The post id, which the database assigns on insert, is a constructor parameter.
- The routes that only read or delete rows (`get_all_posts`, `show_post`, `delete_post`), login with password-hash checking, logout, `load_dotenv` and the year injected into templates.
- The clock: `date.today().strftime(...)` becomes the opaque `today` string given to `Blog.BlogPost.Create`.
- The post author is kept as the author's id, not as the related user object.
- Form validation (`forms.py`) and the server entry point (`wsgi.py`); the form's fields arrive already validated.
- The category buttons and `fetch` of `static/js/scripts.js` (lines 32-52), which are DOM and network I/O.
- The DOM itself: `getBoundingClientRect().top` is a floating-point value in the browser and is taken here as an integer `currentTop`, and `clientHeight` as a natural `headerHeight`; the listener only compares them, so no rounding is involved.
- `Navbar.MainNav.constructor` assumes the page template renders the bar without `is-fixed` and `is-visible`; the template is not part of this model.
