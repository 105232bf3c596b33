/**
  The encyclopedia's entry store (encyclopedia/util.py). An entry titled `t`
  is the file `entries/<t>.md`; its content is the file's text. The store
  lists the entries, searches their titles, creates an entry only if it is
  absent, saves (creates or replaces) an entry, and reads one back.
 */
module Util {
  import opened Text
  import opened Sequences
  import opened Storage

  /** Extension of every entry file. */
  const Md: string := ".md"

  /** Name of the file holding the entry `title`, as `entries/` lists it. */
  function FileName(title: string): string {
    title + Md
  }

  /** `f"entries/{title}.md"`, the title used exactly as given. The path lies
      directly in `entries/` exactly when the title has no `/` (a title with one
      is stored in a subdirectory), and the directory then lists it as `<title>.md`. */
  function EntryPath(title: string): (path: string)
    ensures InDir(path) <==> Plain(title)
    ensures Plain(title) ==> NameIn(path) == FileName(title)
  {
    Dir + FileName(title)
  }

  /** `re.sub(r"\.md$", "", name)` on a name that ends in `.md`: the last three
      characters go, and nothing else changes, so appending `.md` gives the
      name back. */
  function StripMd(name: string): (stem: string)
    requires EndsWith(name, Md)
    ensures FileName(stem) == name
  {
    name[..|name| - |Md|]
  }

  /** Title to file name and back. */
  lemma StripFileName(title: string)
    ensures EndsWith(FileName(title), Md)
    ensures StripMd(FileName(title)) == title
  {
  }

  /** Different titles are stored under different paths, however little they
      differ (surrounding spaces included). */
  lemma EntryPathInjective(a: string, b: string)
    ensures EntryPath(a) == EntryPath(b) ==> a == b
  {
    if EntryPath(a) == EntryPath(b) {
      assert EntryPath(a)[|Dir|..] == FileName(a);
      assert EntryPath(b)[|Dir|..] == FileName(b);
      StripFileName(a);
      StripFileName(b);
    }
  }

  // ---------------------------------------------------------------------------
  // list_entries

  /** The stems of the `.md` names in `names`, in the same order; other names
      are dropped, so every stem comes from a listed `.md` file. */
  function Stems(names: seq<string>): (r: seq<string>)
    ensures |r| <= |names|
    ensures forall t :: t in r ==> FileName(t) in names
  {
    if names == [] then []
    else (if EndsWith(names[0], Md) then [StripMd(names[0])] else []) + Stems(names[1..])
  }

  /** A title is among the stems exactly when its file name is among the names. */
  lemma {:induction false} StemsMembers(names: seq<string>)
    ensures forall t :: t in Stems(names) <==> FileName(t) in names
  {
    if names != [] {
      StemsMembers(names[1..]);
      forall t
        ensures t in Stems(names) <==> FileName(t) in names
      {
        StripFileName(t);
        if EndsWith(names[0], Md) {
        }
        assert names == [names[0]] + names[1..];
      }
    }
  }

  lemma {:induction false} StemsAppend(a: seq<string>, b: seq<string>)
    ensures Stems(a + b) == Stems(a) + Stems(b)
  {
    if a == [] {
      assert a + b == b;
    } else {
      var head := if EndsWith(a[0], Md) then [StripMd(a[0])] else [];
      assert (a + b)[0] == a[0] && (a + b)[1..] == a[1..] + b;
      assert Stems(a + b) == head + Stems(a[1..] + b);
      StemsAppend(a[1..], b);
      assert Stems(a) == head + Stems(a[1..]);
    }
  }

  /** Distinct names have distinct stems. */
  lemma {:induction false} StemsNoDup(names: seq<string>)
    ensures NoDup(names) ==> NoDup(Stems(names))
  {
    if names != [] && NoDup(names) {
      StemsNoDup(names[1..]);
      StemsMembers(names[1..]);
      if EndsWith(names[0], Md) {
        assert names[0] !in names[1..];
        ConsNoDup(StripMd(names[0]), Stems(names[1..]));
      }
    }
  }

  /** `list_entries()`: the titles of the `.md` files in `entries/`, sorted. */
  function ListEntries(fs: FileStorage): (r: seq<string>)
    reads fs
    ensures Sorted(r)
    ensures forall t :: t in r <==> FileName(t) in fs.listing
    ensures multiset(r) == multiset(Stems(fs.listing))
    ensures fs.Valid() ==> NoDup(r)
  {
    var stems := Stems(fs.ListDir());
    StemsMembers(fs.listing);
    StemsNoDup(fs.listing);
    var r := Sort(stems);
    SameMembers(r, stems);
    r
  }

  /** Every stored entry whose title has no `/` is listed, and only stored
      entries are: listing and reading agree. */
  lemma ListedIffStored(fs: FileStorage, title: string)
    requires fs.Valid()
    ensures title in ListEntries(fs) <==> Plain(title) && EntryPath(title) in fs.files
  {
  }

  // ---------------------------------------------------------------------------
  // search_entries

  /** What `search_entries` returns: the one title equal to the query (a `str`
      in the source), or the list of titles containing it (possibly empty). */
  datatype SearchResult = Exact(title: string) | Matches(titles: seq<string>)

  /** The stems that contain `q`, in their order. */
  function Matching(stems: seq<string>, q: string): (r: seq<string>)
    ensures forall t :: t in r <==> t in stems && IsSubstring(q, t)
  {
    if stems == [] then []
    else
      assert stems == [stems[0]] + stems[1..];
      (if Contains(stems[0], q) then [stems[0]] else []) + Matching(stems[1..], q)
  }

  lemma {:induction false} MatchingAppend(a: seq<string>, b: seq<string>, q: string)
    ensures Matching(a + b, q) == Matching(a, q) + Matching(b, q)
  {
    if a == [] {
      assert a + b == b;
    } else {
      assert (a + b)[0] == a[0] && (a + b)[1..] == a[1..] + b;
      MatchingAppend(a[1..], b, q);
    }
  }

  /** Reference meaning of `search_entries(q)` over the listing `names`: an
      exact, case-sensitive match wins over every substring match. */
  function Search(names: seq<string>, q: string): (r: SearchResult)
    ensures r.Exact? <==> exists i :: 0 <= i < |names| && EndsWith(names[i], Md) && StripMd(names[i]) == q
    ensures r.Exact? ==> r.title == q
    ensures r.Matches? ==> forall t :: t in r.titles <==> FileName(t) in names && IsSubstring(q, t)
  {
    StemsMembers(names);
    StripFileName(q);
    forall i | 0 <= i < |names| && EndsWith(names[i], Md) && StripMd(names[i]) == q
      ensures FileName(q) in names
    {
    }
    if q in Stems(names) then Exact(q) else Matches(Matching(Stems(names), q))
  }

  /** One step of the scan: the name at `i` adds its stem, if any, after the
      stems of the names before it, and those stems are all among the stems of
      the whole listing. */
  lemma ScanStep(names: seq<string>, i: nat, q: string)
    requires i < |names|
    ensures Stems(names[..i + 1]) == Stems(names[..i]) + Stems([names[i]])
    ensures Stems([names[i]]) == if EndsWith(names[i], Md) then [StripMd(names[i])] else []
    ensures Matching(Stems(names[..i + 1]), q) == Matching(Stems(names[..i]), q) + Matching(Stems([names[i]]), q)
    ensures forall t :: t in Stems(names[..i + 1]) ==> t in Stems(names)
  {
    assert names[..i + 1] == names[..i] + [names[i]];
    StemsAppend(names[..i], [names[i]]);
    MatchingAppend(Stems(names[..i]), Stems([names[i]]), q);
    assert names == names[..i + 1] + names[i + 1..];
    StemsAppend(names[..i + 1], names[i + 1..]);
  }

  /** `search_entries(search)`: scans the listing in order, returns at the first
      name whose stem equals the query, and otherwise gathers the stems that
      contain it. */
  method SearchEntries(fs: FileStorage, search: string) returns (r: SearchResult)
    ensures r == Search(fs.listing, search)
  {
    var filenames := fs.ListDir();
    var result: seq<string> := [];
    var i := 0;
    while i < |filenames|
      invariant i <= |filenames|
      invariant search !in Stems(filenames[..i])
      invariant result == Matching(Stems(filenames[..i]), search)
    {
      var filename := filenames[i];
      ScanStep(filenames, i, search);
      if EndsWith(filename, Md) {
        var stem := StripMd(filename);
        if stem == search {
          return Exact(stem);
        } else if Contains(stem, search) {
          result := result + [stem];
        }
      }
      i := i + 1;
    }
    assert filenames[..i] == filenames;
    return Matches(result);
  }

  /** The position of `x` in `s`: its first occurrence. */
  function IndexOf(s: seq<string>, x: string): (i: nat)
    requires x in s
    ensures i < |s| && s[i] == x
  {
    if s[0] == x then 0
    else
      assert s == [s[0]] + s[1..];
      IndexOf(s[1..], x) + 1
  }

  /** Every title in `ts` has its file in `names`, and the titles come in the
      order their files have in `names`. */
  ghost predicate InListingOrder(ts: seq<string>, names: seq<string>) {
    && (forall t :: t in ts ==> FileName(t) in names)
    && (forall i, j :: 0 <= i < j < |ts| ==>
          IndexOf(names, FileName(ts[i])) < IndexOf(names, FileName(ts[j])))
  }

  /** A name put in front of a listing keeps the order of titles from the rest. */
  lemma OrderSkip(x: string, rest: seq<string>, ts: seq<string>)
    requires x !in rest
    requires InListingOrder(ts, rest)
    ensures InListingOrder(ts, [x] + rest)
  {
  }

  /** A name put in front of a listing moves every other name one place on. */
  lemma IndexOfShift(x: string, rest: seq<string>, y: string)
    requires y in rest && x !in rest
    ensures IndexOf([x] + rest, y) == IndexOf(rest, y) + 1
  {
    assert ([x] + rest)[1..] == rest;
  }

  /** The title of the name put in front of a listing comes first. */
  lemma OrderCons(x: string, rest: seq<string>, ts: seq<string>)
    requires EndsWith(x, Md) && x !in rest
    requires InListingOrder(ts, rest)
    ensures InListingOrder([StripMd(x)] + ts, [x] + rest)
  {
    var names, us := [x] + rest, [StripMd(x)] + ts;
    assert IndexOf(names, FileName(us[0])) == 0;
    forall t | t in us
      ensures FileName(t) in names
    {
    }
    forall i, j | 0 <= i < j < |us|
      ensures IndexOf(names, FileName(us[i])) < IndexOf(names, FileName(us[j]))
    {
      assert us[j] == ts[j - 1];
      IndexOfShift(x, rest, FileName(ts[j - 1]));
      if i > 0 {
        assert us[i] == ts[i - 1];
        IndexOfShift(x, rest, FileName(ts[i - 1]));
      }
    }
  }

  /** The substring matches come in listing order: of two titles in the result,
      the earlier one's file comes earlier in the listing. So does a search
      that finds no exact match. */
  lemma {:induction false} MatchesInListingOrder(names: seq<string>, q: string)
    requires NoDup(names)
    ensures InListingOrder(Matching(Stems(names), q), names)
    ensures Search(names, q).Matches? ==> InListingOrder(Search(names, q).titles, names)
  {
    if names != [] {
      var x, rest := names[0], names[1..];
      assert names == [x] + rest;
      assert x !in rest;
      assert NoDup(rest) by {
        forall i, j | 0 <= i < j < |rest|
          ensures rest[i] != rest[j]
        {
          assert rest[i] == names[i + 1] && rest[j] == names[j + 1];
        }
      }
      MatchesInListingOrder(rest, q);
      var tail := Matching(Stems(rest), q);
      if EndsWith(x, Md) {
        assert Stems(names) == [StripMd(x)] + Stems(rest);
        assert ([StripMd(x)] + Stems(rest))[1..] == Stems(rest);
        if Contains(StripMd(x), q) {
          OrderCons(x, rest, tail);
        } else {
          OrderSkip(x, rest, tail);
        }
      } else {
        assert Stems(names) == Stems(rest);
        OrderSkip(x, rest, tail);
      }
    }
  }

  /** An exact match wins even when an earlier file's title contains the query. */
  lemma ExactMatchDiscardsEarlierMatches()
    ensures Search(["Pythonic.md", "Python.md"], "Python") == Exact("Python")
  {
  }

  /** Titles are compared case-sensitively: neither equality nor containment
      ignores case. */
  lemma SearchIsCaseSensitive()
    ensures Search(["python.md", "CSS.md"], "Python") == Matches([])
  {
    var names: seq<string> := ["python.md", "CSS.md"];
    var r := Search(names, "Python");
    StripFileName("python");
    StripFileName("CSS");
    assert StripMd(names[0]) == "python";
    assert StripMd(names[1]) == "CSS";
  }

  /** An exact match names an entry that can be read: the search page's
      redirect to that entry finds it. */
  lemma ExactMatchIsReadable(fs: FileStorage, q: string)
    requires fs.Valid()
    requires Search(fs.listing, q).Exact?
    ensures GetEntry(fs, q).Some?
  {
    StemsMembers(fs.listing);
    JoinDir(FileName(q));
  }

  // ---------------------------------------------------------------------------
  // save_entry, new_entry, get_entry

  /** `save_entry(title, content)`: deletes any file for the title, then writes
      it. The source evaluates `title.strip` without calling it, so the title
      is used exactly as given. */
  method SaveEntry(fs: FileStorage, title: string, content: string)
    requires fs.Valid()
    modifies fs
    ensures fs.Valid()
    ensures fs.files == old(fs.files)[EntryPath(title) := content]
    ensures fs.listing == if Plain(title)
                          then Without(old(fs.listing), FileName(title)) + [FileName(title)]
                          else old(fs.listing)
    ensures GetEntry(fs, title) == Some(content)
    ensures title in ListEntries(fs) <==> Plain(title)
  {
    var filename := EntryPath(title);
    JoinDir(FileName(title));
    if fs.Exists(filename) {
      fs.Delete(filename);
    } else if Plain(title) {
      assert FileName(title) !in fs.listing;
    }
    assert fs.files == old(fs.files) - {filename};
    fs.Save(filename, content);
    assert fs.files == old(fs.files)[filename := content];
    ListedIffStored(fs, title);
  }

  /** `new_entry(title, content)`: writes the entry only if no file for the
      title exists, and says whether it did. */
  method NewEntry(fs: FileStorage, title: string, content: string) returns (created: bool)
    requires fs.Valid()
    modifies fs
    ensures fs.Valid()
    ensures created <==> EntryPath(title) !in old(fs.files)
    ensures !created ==> unchanged(fs)
    ensures created ==> fs.files == old(fs.files)[EntryPath(title) := content]
    ensures created ==> fs.listing == old(fs.listing) + if Plain(title) then [FileName(title)] else []
    ensures GetEntry(fs, title) == Some(if created then content else old(fs.files)[EntryPath(title)])
    ensures title in ListEntries(fs) <==> Plain(title)
  {
    var filename := EntryPath(title);
    if fs.Exists(filename) {
      ListedIffStored(fs, title);
      return false;
    }
    fs.Save(filename, content);
    ListedIffStored(fs, title);
    return true;
  }

  /** `get_entry(title)`: the entry's content, or `None` when there is no file for it. */
  function GetEntry(fs: FileStorage, title: string): (r: Option<string>)
    reads fs
    ensures r.Some? <==> EntryPath(title) in fs.files
    ensures r.Some? ==> r.value == fs.files[EntryPath(title)]
  {
    fs.Open(EntryPath(title))
  }
}
