/**
 * The user list screen (userlist.py): every enrolment photograph of the
 * `dataset` folder as a row "Name" / "Position", in sorted file-name order,
 * each row keyed by its file name; and "Delete Selected", which removes
 * the chosen files one by one, reports the ones it could not remove, and
 * lists the folder again.
 */
module UserList {
  import opened Wrappers
  import opened Text
  import opened Storage
  import Registration
  import Ams

  /** `fname.lower().endswith(('.png','.jpg','.jpeg'))`: here all three suffixes carry their dot. */
  predicate IsListedImage(f: string)
  {
    EndsWithFolded(f, ".png") || EndsWithFolded(f, ".jpg") || EndsWithFolded(f, ".jpeg")
  }

  /** Every file the list shows is also one the attendance screen enrols. */
  lemma ListedIsGalleryImage(f: string)
    requires IsListedImage(f)
    ensures Ams.IsGalleryImage(f)
  {
    if EndsWithFolded(f, ".jpg") {
      forall i | 0 <= i < 3
        ensures AsciiLower(f[|f| - 3 + i]) == "jpg"[i]
      {
        assert AsciiLower(f[|f| - 4 + (i + 1)]) == ".jpg"[i + 1];
      }
    } else if EndsWithFolded(f, ".jpeg") {
      forall i | 0 <= i < 4
        ensures AsciiLower(f[|f| - 4 + i]) == "jpeg"[i]
      {
        assert AsciiLower(f[|f| - 5 + (i + 1)]) == ".jpeg"[i + 1];
      }
    }
  }

  /** The converse fails: the attendance screen also enrols a file such as `photojpg`, which the list never shows. */
  lemma UndottedSuffixNotListed()
    ensures Ams.IsGalleryImage("photojpg") && !IsListedImage("photojpg")
  {
    var f := "photojpg";
    assert !EndsWithFolded(f, ".png") by {
      assert AsciiLower(f[|f| - 4 + 0]) != ".png"[0];
    }
    assert !EndsWithFolded(f, ".jpg") by {
      assert AsciiLower(f[|f| - 4 + 0]) != ".jpg"[0];
    }
    assert !EndsWithFolded(f, ".jpeg") by {
      assert AsciiLower(f[|f| - 5 + 0]) != ".jpeg"[0];
    }
    forall i | 0 <= i < 3
      ensures AsciiLower(f[|f| - 3 + i]) == "jpg"[i]
    {
      assert f[5..] == "jpg";
    }
  }

  /** A file name whose folded end is `suffix`, a dot then lower-case letters, has that dot and only letters after it. */
  lemma FoldedSuffixShape(f: string, suffix: string)
    requires EndsWithFolded(f, suffix) && suffix != [] && suffix[0] == '.'
    requires forall i :: 1 <= i < |suffix| ==> 'a' <= suffix[i] <= 'z'
    ensures f[|f| - |suffix|] == '.'
    ensures forall k :: |f| - |suffix| < k < |f| ==> f[k] != '.' && f[k] != ','
  {
    var d := |f| - |suffix|;
    assert AsciiLower(f[d + 0]) == suffix[0];
    forall k | d < k < |f|
      ensures f[k] != '.' && f[k] != ','
    {
      assert AsciiLower(f[d + (k - d)]) == suffix[k - d];
    }
  }

  /** The dot that starts a listed file's suffix: no dot and no comma follows it. */
  lemma ListedSuffixDot(f: string) returns (d: nat)
    requires IsListedImage(f)
    ensures d < |f| && f[d] == '.' && '.' !in f[d + 1..]
    ensures forall k :: d < k < |f| ==> f[k] != ','
  {
    if EndsWithFolded(f, ".png") {
      d := |f| - 4;
      FoldedSuffixShape(f, ".png");
    } else if EndsWithFolded(f, ".jpg") {
      d := |f| - 4;
      FoldedSuffixShape(f, ".jpg");
    } else {
      d := |f| - 5;
      FoldedSuffixShape(f, ".jpeg");
    }
    var tail := f[d + 1..];
    forall k | 0 <= k < |tail|
      ensures tail[k] != '.'
    {
      assert tail[k] == f[d + 1 + k];
    }
  }

  /**
   * A comma anywhere in a listed file name stands before its suffix, so the
   * stem keeps it; this is why `split(',', 1)` on the stem of such a name
   * always gives two parts.
   */
  lemma CommaInStem(f: string)
    requires IsListedImage(f) && ',' in f
    ensures ',' in Stem(f)
  {
    var d := ListedSuffixDot(f);
    var j :| 0 <= j < |f| && f[j] == ',';
    assert j < d;
    StemKeepsBeforeDot(f, j, d);
    assert Stem(f)[j] == ',';
  }

  /**
   * The "Name" and "Position" a listed file shows: with a comma in the file
   * name, the stem split at its first comma, both halves stripped (the
   * position keeps any later commas); without one, the whole stripped file
   * name, suffix included, and no position.
   */
  function DecodeFileName(f: string): (r: (string, string))
    requires IsListedImage(f)
    ensures IsStripped(r.0) && IsStripped(r.1)
    ensures ',' !in f ==> r == (Strip(f), "")
    ensures ',' in f ==> ',' !in r.0
  {
    if ',' in f then
      CommaInStem(f);
      var stem := Stem(f);
      var i := IndexOf(stem, ',').value;
      (Strip(stem[..i]), Strip(stem[i + 1..]))
    else
      (Strip(f), "")
  }

  /**
   * Registration and listing agree: the file `save` writes for a name and
   * position as stripped, non-empty, and with no comma in the name, is listed
   * and shows exactly that name and position.
   */
  lemma SavedFileListsAsEntered(name: string, position: string)
    requires name != [] && IsStripped(name) && IsStripped(position)
    requires ',' !in name
    ensures IsListedImage(Registration.FileNameFor(name, position))
    ensures DecodeFileName(Registration.FileNameFor(name, position)) == (name, position)
  {
    var f := Registration.FileNameFor(name, position);
    assert f == (name + ", " + position) + ".jpg";
    DottedJpgListed(name + ", " + position);
    Registration.SavedFileGalleryKey(name, position);
    assert name + ", " + position == name + "," + (" " + position);
    DecodeOfStem(f, name, " " + position);
    StripLeadingSpace(position);
  }

  /** A listed file whose stem is `<first>,<rest>` with no comma in `first` decodes to the two stripped parts. */
  lemma DecodeOfStem(f: string, first: string, rest: string)
    requires IsListedImage(f) && Stem(f) == first + "," + rest && ',' !in first
    ensures DecodeFileName(f) == (Strip(first), Strip(rest))
  {
    var stem := Stem(f);
    assert stem[..|first|] == first && stem[|first| + 1..] == rest;
    forall k | 0 <= k < |first|
      ensures stem[k] != ','
    {
      assert stem[k] == first[k];
    }
    DecodeAtFirstComma(f, |first|);
  }

  /** The split happens at the first comma of the stem. */
  lemma DecodeAtFirstComma(f: string, i: nat)
    requires IsListedImage(f)
    requires i < |Stem(f)| && Stem(f)[i] == ',' && forall k :: 0 <= k < i ==> Stem(f)[k] != ','
    ensures DecodeFileName(f) == (Strip(Stem(f)[..i]), Strip(Stem(f)[i + 1..]))
  {
    var stem := Stem(f);
    assert f[i] == stem[i];
    assert IndexOf(stem, ',') == Some(i);
  }

  /** Any name ending in `.jpg` is listed. */
  lemma DottedJpgListed(base: string)
    ensures IsListedImage(base + ".jpg")
  {
    var f := base + ".jpg";
    forall i | 0 <= i < 4
      ensures AsciiLower(f[|f| - 4 + i]) == ".jpg"[i]
    {
      assert f[|base| + i] == ".jpg"[i];
    }
    assert EndsWithFolded(f, ".jpg");
  }

  /** What a successful "Save" wrote is listed under the name and position typed, as long as the name has no comma. */
  lemma SaveThenListRoundTrip(captured: bool, nameText: string, positionText: string)
    requires Registration.CheckSave(captured, nameText, positionText).Saved?
    requires ',' !in Strip(nameText)
    ensures IsListedImage(Registration.CheckSave(captured, nameText, positionText).fileName)
    ensures DecodeFileName(Registration.CheckSave(captured, nameText, positionText).fileName)
            == (Strip(nameText), Strip(positionText))
  {
    SavedFileListsAsEntered(Strip(nameText), Strip(positionText));
  }

  /** Without commas in the names, different registrations write different files. */
  lemma {:induction false} FileNameInjective(name1: string, position1: string, name2: string, position2: string)
    requires ',' !in name1 && ',' !in name2
    requires Registration.FileNameFor(name1, position1) == Registration.FileNameFor(name2, position2)
    ensures name1 == name2 && position1 == position2
  {
    var f := Registration.FileNameFor(name1, position1);
    assert f[|name1|] == ',' && f[|name2|] == ',';
    assert name1 == f[..|name1|] == name2;
    assert position1 == f[|name1| + 2..|f| - 4] == position2;
  }

  /**
   * With a comma in the name the round trip breaks: registering
   * `"<first>, <last>"` in the role `role` writes the same file as
   * registering `first` in the role `"<last>, <role>"`, and the list shows
   * that file as the second registration.
   */
  lemma CommaInNameCollides(first: string, last: string, role: string)
    requires first != [] && last != [] && role != []
    requires IsStripped(first) && IsStripped(last) && IsStripped(role)
    requires ',' !in first
    ensures Registration.FileNameFor(first + ", " + last, role) == Registration.FileNameFor(first, last + ", " + role)
    ensures DecodeFileName(Registration.FileNameFor(first + ", " + last, role)) == (first, last + ", " + role)
  {
    var position := last + ", " + role;
    assert Registration.FileNameFor(first + ", " + last, role) == Registration.FileNameFor(first, position);
    assert position[0] == last[0] && position[|position| - 1] == role[|role| - 1];
    SavedFileListsAsEntered(first, position);
  }

  /** A row of the tree: `iid` is the file name, `values` are name and position. */
  datatype UserRow = UserRow(iid: string, name: string, position: string)

  function RowFor(f: string): (r: UserRow)
    requires IsListedImage(f)
    ensures r.iid == f && IsStripped(r.name) && IsStripped(r.position) && ',' !in r.name
    ensures ',' !in f ==> r.position == []
  {
    var (name, position) := DecodeFileName(f);
    UserRow(f, name, position)
  }

  /** The rows `load_users` inserts for the file names `names`, taken in the order given. */
  function ListRows(names: seq<string>): seq<UserRow>
  {
    if names == [] then []
    else
      var rows := ListRows(names[..|names| - 1]);
      var f := names[|names| - 1];
      if IsListedImage(f) then rows + [RowFor(f)] else rows
  }

  predicate StrictlySorted(s: seq<string>)
  {
    forall i, j :: 0 <= i < j < |s| ==> Less(s[i], s[j])
  }

  /** `sorted` on strings, as an insertion of `x` into `s`. */
  function Insert(x: string, s: seq<string>): (r: seq<string>)
    ensures multiset(r) == multiset(s) + multiset{x}
    ensures forall y :: y in r <==> y == x || y in s
  {
    if s == [] then [x]
    else if Less(s[0], x) then
      assert s == [s[0]] + s[1..];
      [s[0]] + Insert(x, s[1..])
    else [x] + s
  }

  /** `sorted(names)`. */
  function Sort(s: seq<string>): (r: seq<string>)
    ensures multiset(r) == multiset(s)
    ensures forall y :: y in r <==> y in s
  {
    if s == [] then []
    else
      assert s == [s[0]] + s[1..];
      Insert(s[0], Sort(s[1..]))
  }

  lemma {:induction false} InsertSorted(x: string, s: seq<string>)
    requires StrictlySorted(s) && x !in s
    ensures StrictlySorted(Insert(x, s))
  {
    if s != [] {
      if Less(s[0], x) {
        InsertSorted(x, s[1..]);
        var t := Insert(x, s[1..]);
        forall y | y in t
          ensures Less(s[0], y)
        {
          if y != x {
            var k :| 1 <= k < |s| && s[k] == y;
          }
        }
        var r := [s[0]] + t;
        forall i, j | 0 <= i < j < |r|
          ensures Less(r[i], r[j])
        {
          if i == 0 {
            assert r[j] in t;
          }
        }
      } else {
        assert x != s[0];
        LessTotal(x, s[0]);
        var r := [x] + s;
        forall i, j | 0 <= i < j < |r|
          ensures Less(r[i], r[j])
        {
          if i == 0 && j > 1 {
            LessTransitive(x, s[0], s[j - 1]);
          }
        }
      }
    }
  }

  /** `sorted` over distinct names: the same names, strictly ascending. */
  lemma {:induction false} SortSorted(s: seq<string>)
    requires Distinct(s)
    ensures StrictlySorted(Sort(s))
  {
    if s != [] {
      assert Distinct(s[1..]);
      SortSorted(s[1..]);
      assert s[0] !in s[1..];
      InsertSorted(s[0], Sort(s[1..]));
    }
  }

  /** There is one strictly ascending arrangement of a set of names, so the order `os.listdir` returns does not matter. */
  lemma {:induction false} StrictlySortedUnique(a: seq<string>, b: seq<string>)
    requires StrictlySorted(a) && StrictlySorted(b)
    requires forall y :: y in a <==> y in b
    ensures a == b
  {
    if a != [] {
      assert a[0] in b;
    }
    if b != [] {
      assert b[0] in a;
    }
    if a != [] && b != [] {
      if a[0] != b[0] {
        var k :| 0 <= k < |b| && b[k] == a[0];
        var m :| 0 <= m < |a| && a[m] == b[0];
        assert Less(b[0], a[0]) && Less(a[0], b[0]);
        LessTotal(a[0], b[0]);
      }
      forall y
        ensures y in a[1..] <==> y in b[1..]
      {
        if y in a[1..] {
          var i :| 1 <= i < |a| && a[i] == y;
          LessTotal(a[0], y);
          assert y in a;
          var j :| 0 <= j < |b| && b[j] == y;
          assert j != 0 && b[1..][j - 1] == y;
        }
        if y in b[1..] {
          var i :| 1 <= i < |b| && b[i] == y;
          LessTotal(b[0], y);
          assert y in b;
          var j :| 0 <= j < |a| && a[j] == y;
          assert j != 0 && a[1..][j - 1] == y;
        }
      }
      StrictlySortedUnique(a[1..], b[1..]);
      assert a == [a[0]] + a[1..] && b == [b[0]] + b[1..];
    }
  }

  function Iids(rows: seq<UserRow>): seq<string>
  {
    seq(|rows|, i requires 0 <= i < |rows| => rows[i].iid)
  }

  /**
   * What the tree shows after `load_users` on a folder holding `files`: one
   * row per listed image, keyed by its file name, decoded, in ascending
   * file-name order, and nothing else.
   */
  ghost predicate ListsFolder(rows: seq<UserRow>, files: set<string>)
  {
    && StrictlySorted(Iids(rows))
    && (forall i :: 0 <= i < |rows| ==> rows[i].iid in files && IsListedImage(rows[i].iid) && rows[i] == RowFor(rows[i].iid))
    && (forall f :: f in files && IsListedImage(f) ==> f in Iids(rows))
  }

  /** The rows of a sorted listing are the listed images, in that order, each once and decoded. */
  lemma ListRowsSpec(names: seq<string>)
    requires StrictlySorted(names)
    ensures StrictlySorted(Iids(ListRows(names)))
    ensures forall i :: 0 <= i < |ListRows(names)| ==>
              ListRows(names)[i].iid in names && IsListedImage(ListRows(names)[i].iid)
              && ListRows(names)[i] == RowFor(ListRows(names)[i].iid)
    ensures forall f :: f in names && IsListedImage(f) ==> f in Iids(ListRows(names))
  {
    ListRowsDecoded(names);
    ListRowsComplete(names);
    ListRowsSorted(names);
  }

  /** Every row comes from a listed image of `names` and shows its decoded name. */
  lemma {:induction false} ListRowsDecoded(names: seq<string>)
    ensures forall i :: 0 <= i < |ListRows(names)| ==>
              ListRows(names)[i].iid in names && IsListedImage(ListRows(names)[i].iid)
              && ListRows(names)[i] == RowFor(ListRows(names)[i].iid)
  {
    if names != [] {
      var init := names[..|names| - 1];
      ListRowsDecoded(init);
      assert names == init + [names[|names| - 1]];
    }
  }

  /** Every listed image of `names` has a row. */
  lemma ListRowsComplete(names: seq<string>)
    ensures forall f :: f in names && IsListedImage(f) ==> f in Iids(ListRows(names))
  {
    IidsOfListRows(names);
  }

  /** The rows of a strictly ascending listing are strictly ascending by file name. */
  lemma ListRowsSorted(names: seq<string>)
    requires StrictlySorted(names)
    ensures StrictlySorted(Iids(ListRows(names)))
  {
    IidsOfListRows(names);
    ListedNamesSorted(names);
  }

  /** The file names `load_users` keeps from `names`, in order. */
  function ListedNames(names: seq<string>): (r: seq<string>)
    ensures forall x :: x in r <==> x in names && IsListedImage(x)
  {
    if names == [] then []
    else
      var init := names[..|names| - 1];
      var last := names[|names| - 1];
      assert names == init + [last];
      ListedNames(init) + (if IsListedImage(last) then [last] else [])
  }

  lemma {:induction false} IidsOfListRows(names: seq<string>)
    ensures Iids(ListRows(names)) == ListedNames(names)
  {
    if names != [] {
      var init := names[..|names| - 1];
      var last := names[|names| - 1];
      IidsOfListRows(init);
      if IsListedImage(last) {
        assert Iids(ListRows(init) + [RowFor(last)]) == Iids(ListRows(init)) + [last];
      }
    }
  }

  /** Keeping some names of a strictly ascending list keeps it strictly ascending. */
  lemma {:induction false} ListedNamesSorted(names: seq<string>)
    requires StrictlySorted(names)
    ensures StrictlySorted(ListedNames(names))
  {
    if names != [] {
      var init := names[..|names| - 1];
      var last := names[|names| - 1];
      assert StrictlySorted(init);
      ListedNamesSorted(init);
      var kept := ListedNames(init);
      if IsListedImage(last) {
        var r := kept + [last];
        forall i, j | 0 <= i < j < |r|
          ensures Less(r[i], r[j])
        {
          if j == |kept| {
            assert r[i] in init;
            var k :| 0 <= k < |init| && init[k] == r[i];
            assert names[k] == init[k];
          }
        }
      }
    }
  }

  /** Two tree contents that both list the same folder are the same. */
  lemma ListsFolderUnique(rows1: seq<UserRow>, rows2: seq<UserRow>, files: set<string>)
    requires ListsFolder(rows1, files) && ListsFolder(rows2, files)
    ensures rows1 == rows2
  {
    forall y
      ensures y in Iids(rows1) <==> y in Iids(rows2)
    {
      if y in Iids(rows1) {
        var i :| 0 <= i < |rows1| && Iids(rows1)[i] == y;
      }
      if y in Iids(rows2) {
        var i :| 0 <= i < |rows2| && Iids(rows2)[i] == y;
      }
    }
    StrictlySortedUnique(Iids(rows1), Iids(rows2));
    assert |rows1| == |Iids(rows1)|;
    forall i | 0 <= i < |rows1|
      ensures rows1[i] == rows2[i]
    {
      assert rows1[i].iid == Iids(rows1)[i] == Iids(rows2)[i] == rows2[i].iid;
    }
  }

  /**
   * The files removal fails for, in selection order: those no longer in the
   * folder (including a name selected a second time) and those the file
   * system refuses to remove.
   */
  function FailedRemovals(selection: seq<string>, files: set<string>, undeletable: set<string>): (r: seq<string>)
    ensures forall x :: x in r ==> x in selection
    ensures forall x :: x in selection && (x !in files || x in undeletable) ==> x in r
  {
    if selection == [] then []
    else
      var init := selection[..|selection| - 1];
      var x := selection[|selection| - 1];
      var earlier := FailedRemovals(init, files, undeletable);
      assert selection == init + [x];
      if x !in files || x in undeletable || x in init then earlier + [x] else earlier
  }

  /** A reported file is gone, cannot be removed, or was selected more than once. */
  lemma {:induction false} FailureHasCause(selection: seq<string>, files: set<string>, undeletable: set<string>)
    ensures forall x :: x in FailedRemovals(selection, files, undeletable) ==>
              x !in files || x in undeletable || multiset(selection)[x] > 1
  {
    if selection != [] {
      var init := selection[..|selection| - 1];
      var x := selection[|selection| - 1];
      FailureHasCause(init, files, undeletable);
      assert selection == init + [x];
    }
  }

  /** `os.remove(selection[i])` fails: the file is gone (perhaps removed at an earlier position) or cannot be removed. */
  predicate FailsAt(selection: seq<string>, files: set<string>, undeletable: set<string>, i: nat)
    requires i < |selection|
  {
    selection[i] !in files || selection[i] in undeletable || selection[i] in selection[..i]
  }

  /** Whether removal fails at a position does not depend on what is selected after it. */
  lemma FailsAtPrefix(selection: seq<string>, files: set<string>, undeletable: set<string>, n: nat, i: nat)
    requires i < n <= |selection|
    ensures FailsAt(selection[..n], files, undeletable, i) == FailsAt(selection, files, undeletable, i)
  {
    assert selection[..n][..i] == selection[..i];
  }

  /** The positions of `selection` whose removal fails, in order. */
  function FailedPositions(selection: seq<string>, files: set<string>, undeletable: set<string>): seq<nat>
  {
    if selection == [] then []
    else
      var n := |selection| - 1;
      FailedPositions(selection[..n], files, undeletable) + (if FailsAt(selection, files, undeletable, n) then [n] else [])
  }

  /**
   * The reported failures are the order-preserving subsequence of the
   * selection at exactly the positions whose removal fails.
   */
  lemma FailedRemovalsInOrder(selection: seq<string>, files: set<string>, undeletable: set<string>)
    ensures var r, pos := FailedRemovals(selection, files, undeletable), FailedPositions(selection, files, undeletable);
            && |r| == |pos|
            && (forall k :: 0 <= k < |pos| ==> pos[k] < |selection| && r[k] == selection[pos[k]])
            && (forall a, b :: 0 <= a < b < |pos| ==> pos[a] < pos[b])
            && (forall i :: 0 <= i < |selection| ==> (i in pos <==> FailsAt(selection, files, undeletable, i)))
  {
    FailedPositionsAscending(selection, files, undeletable);
    FailedRemovalsAtPositions(selection, files, undeletable);
    FailedPositionsExact(selection, files, undeletable);
  }

  lemma {:induction false} FailedPositionsAscending(selection: seq<string>, files: set<string>, undeletable: set<string>)
    ensures forall k :: 0 <= k < |FailedPositions(selection, files, undeletable)| ==>
              FailedPositions(selection, files, undeletable)[k] < |selection|
    ensures forall a, b :: 0 <= a < b < |FailedPositions(selection, files, undeletable)| ==>
              FailedPositions(selection, files, undeletable)[a] < FailedPositions(selection, files, undeletable)[b]
  {
    if selection != [] {
      var n := |selection| - 1;
      var p := selection[..n];
      FailedPositionsAscending(p, files, undeletable);
      var pos' := FailedPositions(p, files, undeletable);
      assert |p| == n;
      assert forall k :: 0 <= k < |pos'| ==> pos'[k] < n;
    }
  }

  lemma {:induction false} FailedRemovalsAtPositions(selection: seq<string>, files: set<string>, undeletable: set<string>)
    ensures var r, pos := FailedRemovals(selection, files, undeletable), FailedPositions(selection, files, undeletable);
            |r| == |pos| && forall k :: 0 <= k < |pos| ==> pos[k] < |selection| && r[k] == selection[pos[k]]
  {
    if selection != [] {
      var n := |selection| - 1;
      var p := selection[..n];
      FailedRemovalsAtPositions(p, files, undeletable);
      var pos' := FailedPositions(p, files, undeletable);
      forall k | 0 <= k < |pos'| ensures selection[pos'[k]] == p[pos'[k]] { }
    }
  }

  lemma {:induction false} FailedPositionsExact(selection: seq<string>, files: set<string>, undeletable: set<string>)
    ensures forall i :: 0 <= i < |selection| ==>
              (i in FailedPositions(selection, files, undeletable) <==> FailsAt(selection, files, undeletable, i))
  {
    if selection != [] {
      var n := |selection| - 1;
      var p := selection[..n];
      FailedPositionsExact(p, files, undeletable);
      FailedPositionsAscending(p, files, undeletable);
      var pos' := FailedPositions(p, files, undeletable);
      assert forall k :: 0 <= k < |pos'| ==> pos'[k] < n;
      assert n !in pos';
      forall i | 0 <= i < n
        ensures i in FailedPositions(selection, files, undeletable) <==> FailsAt(selection, files, undeletable, i)
      {
        FailsAtPrefix(selection, files, undeletable, n, i);
      }
    }
  }

  /** The selected files that `os.remove` takes away. */
  function Removed(selection: seq<string>, files: set<string>, undeletable: set<string>): set<string>
  {
    set x | x in selection && x in files && x !in undeletable
  }

  class UserListApp {
    var rows: seq<UserRow>
    const folder: Dataset

    constructor (folder: Dataset)
      ensures this.folder == folder
      ensures ListsFolder(rows, folder.files.Keys)
    {
      this.folder := folder;
      rows := [];
      new;
      LoadUsers();
    }

    /**
     * `load_users`: clears the tree, lists the folder (in whatever order the
     * file system gives), sorts the names and inserts a row for each listed
     * image.
     */
    method LoadUsers()
      modifies this`rows
      ensures ListsFolder(rows, folder.files.Keys)
    {
      rows := [];
      var remaining := folder.files.Keys;
      var listing: seq<string> := [];
      while remaining != {}
        invariant Distinct(listing)
        invariant forall f :: f in listing ==> f !in remaining
        invariant forall f :: f in folder.files.Keys <==> f in listing || f in remaining
        decreases remaining
      {
        var f :| f in remaining;
        listing := listing + [f];
        remaining := remaining - {f};
      }
      var names := Sort(listing);
      SortSorted(listing);
      for i := 0 to |names|
        invariant rows == ListRows(names[..i])
      {
        assert names[..i + 1][..i] == names[..i];
        if IsListedImage(names[i]) {
          rows := rows + [RowFor(names[i])];
        }
      }
      assert names[..|names|] == names;
      ListRowsSpec(names);
    }

    /**
     * `delete_selected` with the tree's selection, the answer to "Delete
     * selected user(s)?", and the files the file system refuses to remove:
     * nothing happens without a selection or a "yes"; otherwise each
     * selected file is removed when it can be, every failure is reported and
     * the loop goes on, and the list is loaded again.
     */
    method DeleteSelected(selection: seq<string>, confirmed: bool, undeletable: set<string>)
      returns (failures: seq<string>)
      modifies this`rows, folder
      ensures selection == [] || !confirmed ==> failures == [] && unchanged(this) && unchanged(folder)
      ensures selection != [] && confirmed ==>
                && folder.files.Keys == old(folder.files.Keys) - Removed(selection, old(folder.files.Keys), undeletable)
                && (forall f :: f in folder.files ==> folder.files[f] == old(folder.files[f]))
                && failures == FailedRemovals(selection, old(folder.files.Keys), undeletable)
                && ListsFolder(rows, folder.files.Keys)
    {
      failures := [];
      if selection == [] || !confirmed {
        return;
      }
      for i := 0 to |selection|
        invariant folder.files.Keys == old(folder.files.Keys) - Removed(selection[..i], old(folder.files.Keys), undeletable)
        invariant forall f :: f in folder.files ==> folder.files[f] == old(folder.files[f])
        invariant failures == FailedRemovals(selection[..i], old(folder.files.Keys), undeletable)
      {
        var x := selection[i];
        assert selection[..i + 1] == selection[..i] + [x];
        if x in folder.files && x !in undeletable {
          folder.files := folder.files - {x};
        } else {
          failures := failures + [x];
        }
      }
      assert selection[..|selection|] == selection;
      LoadUsers();
    }
  }
}
