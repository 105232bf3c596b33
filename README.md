# Encyclopedia entry store, modelled in Dafny

The encyclopedia is a small wiki. Each entry is a Markdown text file: the entry
titled `t` lives at the storage path `entries/<t>.md`. The module
`encyclopedia/util.py` is the entry store. It has five operations:

- `list_entries`: every title, sorted.
- `search_entries`: the title equal to a query, or else every title containing it.
- `new_entry`: create an entry only if it is absent.
- `save_entry`: create or replace an entry.
- `get_entry`: read an entry back, or `None`.

The project has four modules:

- `Text` (text.dfy): the Python string operations the store relies on, with
  Python's meaning. These are `str.endswith`, the substring test `q in s`,
  and the code-point order `<=` that `sorted` uses. All are case-sensitive.
  `Contains` is proved equal to a reference definition of "some slice equals
  the query". The order `LexLe` is proved to be decided by the first differing code point, and reflexive, total, transitive and
  antisymmetric.
- `Sequences` (sequences.dfy): duplicate-freedom, sortedness, an insertion
  sort standing for Python's `sorted`, and `Without`, which removes a name
  from a listing. The sort is proved sorted and a permutation. A separate
  lemma proves that a sorted permutation is unique, so any correct sort
  (Python's Timsort included) gives the same list.
- `Storage` (storage.dfy): the file storage the store calls, as a class
  `FileStorage`. It has two fields. `files` maps each path to its text.
  `listing` holds the names of the files directly in `entries/`, in the order
  the directory lists them. `Valid()` says the listing shows each such file
  exactly once and nothing else. `Exists`, `Open` and `ListDir` read the
  state. `Delete` and `Save` change it, and their contracts give the whole
  new state. A file in a subdirectory of `entries/` is stored but never
  listed.
- `Util` (util.dfy): the five operations. `list_entries` and `get_entry` are
  functions of the storage. `search_entries` is a method with the source's
  loop and early return, proved equal to the reference function `Search`.
  `new_entry` and `save_entry` are methods that change the storage through
  `Exists`, `Delete` and `Save`, as the source does.

The search result is a tagged value. `Exact(t)` stands for the source
returning a `str`. `Matches(ts)` stands for it returning a list, which may be
empty.

Points of the code the model keeps as written:

- Search compares titles case-sensitively, both for equality
  (`encyclopedia/util.py:31`) and for containment (`encyclopedia/util.py:35`).
- A search with no match returns an empty list (`encyclopedia/util.py:37`).
- `save_entry` returns `None` (`encyclopedia/util.py:50`).
- `title.strip` is evaluated but never called (`encyclopedia/util.py:45`),
  so the title is used exactly as given, surrounding spaces included.

## Model

| member | source | states |
|---|---|---|
| Util.ListEntries | encyclopedia/util.py:7-13 | The result is sorted in Python's string order. A title is in it exactly when `<title>.md` is listed in `entries/`, so files without the `.md` suffix are omitted. It holds each `.md` stem once per listed file. It has no duplicates when the storage is valid. |
| Util.StemsMembers | encyclopedia/util.py:12-13 | The suffix filter and strip keep a title exactly when its `.md` file is among the listed names. |
| Util.StripFileName | encyclopedia/util.py:12 | A title's file name ends in `.md`, and stripping `.md` from it gives the title back. |
| Util.StripMd | encyclopedia/util.py:29 | `re.sub(r"\.md$", "", name)` on a name ending in `.md` gives the stem whose file name is that name again. |
| Util.StemsAppend | encyclopedia/util.py:27-29 | Filtering and stripping a listing works piece by piece: the stems of `a + b` are the stems of `a` followed by those of `b`. |
| Util.StemsNoDup | encyclopedia/util.py:11-13 | Distinct listed names give distinct titles. |
| Util.ListedIffStored | encyclopedia/util.py:11-13 | In a valid storage, a title is listed exactly when its entry file exists and the title has no `/`. |
| Sequences.Sort | encyclopedia/util.py:12 | `sorted` returns its input sorted ascending, as a permutation. It keeps a duplicate-free input duplicate-free. |
| Sequences.Insert | encyclopedia/util.py:12 | Inserting into a sorted list keeps it sorted and adds exactly that one element. |
| Sequences.SortedUnique | encyclopedia/util.py:12 | Two sorted permutations of the same list are equal, so the sort's result does not depend on the algorithm. |
| Text.LexLeReflexive | encyclopedia/util.py:12 | Python's string order puts every string at or below itself. |
| Text.LexLeTotal | encyclopedia/util.py:12 | Any two strings are comparable in Python's string order. |
| Text.LexLeTransitive | encyclopedia/util.py:12 | Python's string order is transitive. |
| Text.LexLeAntisymmetric | encyclopedia/util.py:12 | Two strings each at or below the other are equal. |
| Text.Contains | encyclopedia/util.py:35 | The substring test `search in nameonly` holds exactly when some slice of the title equals the query. The test is case-sensitive, and the empty query is in every title. |
| Util.Matching | encyclopedia/util.py:35-36 | The gathered titles are exactly the stems that contain the query. |
| Util.MatchingAppend | encyclopedia/util.py:35-36 | Gathering matches works piece by piece: the matches in `a + b` are those in `a` followed by those in `b`. |
| Util.Search | encyclopedia/util.py:16-37 | The result is an exact match exactly when some listed `.md` name's stem equals the query, case-sensitively. That match is the query itself. Otherwise it is the list of titles whose file is listed and which contain the query. The list may be empty. |
| Util.SearchEntries | encyclopedia/util.py:25-37 | The scan with its early return gives exactly `Search` of the current listing. |
| Util.MatchesInListingOrder | encyclopedia/util.py:27-37 | In a duplicate-free listing, the substring matches appear in the order of their files in the listing, and so does the list a search returns when no title equals the query. |
| Util.ExactMatchDiscardsEarlierMatches | encyclopedia/util.py:27-34 | With `Pythonic.md` listed before `Python.md`, searching for `Python` returns the exact match alone. The earlier substring match is dropped. |
| Util.SearchIsCaseSensitive | encyclopedia/util.py:31-35 | Searching for `Python` among `python.md` and `CSS.md` returns an empty list. Neither the equality nor the substring test ignores case. |
| Util.ExactMatchIsReadable | encyclopedia/views.py:41-45 | In a valid storage, an exact match names an entry that `get_entry` finds. So the search page's redirect leads to an existing entry. |
| Util.EntryPath | encyclopedia/util.py:46 | `entries/<title>.md` lies directly in `entries/` exactly when the title has no `/`. The directory then lists it as `<title>.md`. |
| Util.EntryPathInjective | encyclopedia/util.py:45-46 | Different titles have different paths. A title with surrounding spaces is stored apart from the trimmed one. |
| Util.SaveEntry | encyclopedia/util.py:39-50 | The path `entries/<title>.md` ends up holding `content`, whether or not it existed before. Every other path is unchanged. When the title has no `/`, its file name moves to the end of the listing; otherwise the listing is unchanged. `get_entry` then returns `content`. The title is listed exactly when it has no `/`. Validity is kept. |
| Util.NewEntry | encyclopedia/util.py:52-62 | It returns `false` exactly when the entry already existed. In that case nothing changes. Otherwise only that path is added, holding `content`. Its file name is appended to the listing when the title has no `/`. `get_entry` then returns `content` if the entry was created, and the old text if not. Validity is kept. |
| Util.GetEntry | encyclopedia/util.py:65-74 | It returns the text stored at `entries/<title>.md`, or `None` when no such file exists. |
| Text.EndsWith | encyclopedia/util.py:28 | `filename.endswith(".md")` holds exactly when some tail of the name equals `.md`. |
| Text.LexLe | encyclopedia/util.py:12 | In the string order `sorted` uses, a string comes at or before every string it is a prefix of, and after its own proper prefixes. |
| Text.LexLeFirstDifference | encyclopedia/util.py:12 | In the string order `sorted` uses, the first position where two strings differ decides their order, by comparing the code points there. |
| Util.Stems | encyclopedia/util.py:12-13 | The filter-and-strip comprehension yields at most one title per listed name, and each title comes from a listed `.md` file. |
| Storage.FileStorage.ListDir | encyclopedia/util.py:11 | In a valid storage, `listdir("entries")` reports each file directly in `entries/` exactly once and nothing else. |
| Storage.FileStorage.Exists | encyclopedia/util.py:47 | `exists(path)` is true exactly when opening the path finds a file. |
| Storage.FileStorage.Open | encyclopedia/util.py:71-74 | Opening a path yields the file's text, or `None` (standing for `FileNotFoundError`) exactly when no file is there. |
| Storage.FileStorage.Delete | encyclopedia/util.py:48 | `delete(path)` removes that one path and nothing else. A file directly in `entries/` also leaves the listing, the other names keeping their order. Validity is kept. |
| Storage.FileStorage.Save | encyclopedia/util.py:49 | `save(path, content)` on a free path adds exactly that path, holding `content`. A file directly in `entries/` is appended to the listing. Validity is kept. |

## Left out

- `encyclopedia/views.py` and `encyclopedia/urls.py`: request handling, form validation, templates, redirects and routes. They are presentation around the store. Only the exact-match redirect is stated, in `ExactMatchIsReadable`.
- The Markdown-to-HTML renderer is not part of this model. No code for it is among the files modelled.
- The debug `print` calls in `search_entries` are output only and are left out.
- `get_entry` decodes the file's bytes as UTF-8. The model stores text, so decoding (and a decoding error) is not modelled.
- Storage errors other than a missing file (permissions, a full disk) are not modelled. A missing file is the `None` result of `get_entry`.
- Storage.FileStorage.Save: requires a free path. Django's storage would choose a different name for a taken path. Both callers in the store make sure the path is free, and the model verifies this at both call sites. So the renaming path is never taken and is not modelled.
- Path normalisation is not modelled. Paths are compared as plain strings, so a title holding `.` or `..` segments, or an empty segment, is not resolved the way the file system resolves it. For example, the title `/x` gives `entries//x.md`, which the file system takes to be `entries/x.md`, so the title `x` would then be listed. The model keeps the two as separate paths and never lists the first. `EntryPathInjective` is accordingly about path strings, not files on disk. Nor is the case-folding of a case-insensitive file system: there `entries/css.md` and `entries/CSS.md` are one file, so `new_entry("css", …)` returns `False` once `CSS` exists, while `NewEntry` compares paths as case-sensitive strings and creates a second entry.
- A directory whose name ends in `.md` would make `exists` true. The model holds files only.
- The file system decides where a new file appears in a directory listing. The model puts it at the end, and `Delete` keeps the order of the other names.
- Python's `sorted` is modelled as an insertion sort, `Sequences.Sort`. Its result is the same list, since `SortedUnique` shows a sorted permutation is unique.
- Concurrent writers are not modelled. Two simultaneous saves of one entry race in the source. The model runs one operation at a time.
