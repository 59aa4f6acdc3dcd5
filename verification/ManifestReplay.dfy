/**
 * The harness's own reader of manifests: the level layout after every edit, and the
 * sweep that finds the largest number of level-0 files over one key.
 */
module ManifestReplays {
  import opened Core

  datatype File = File(size: nat, smallest: Key, largest: Key)
  {
    predicate Holds(x: Key) {
      smallest <= x <= largest
    }
  }

  // ---- The sweep ----

  /** A range opens or closes at a key. */
  datatype Event = Event(key: Key, open: bool)

  /** Tuple order on (key, kind): at one key, opening comes before closing. */
  predicate NotAfter(a: Event, b: Event) {
    a.key < b.key || (a.key == b.key && (a.open || !b.open))
  }

  ghost predicate InOrder(s: seq<Event>) {
    forall i, j | 0 <= i < j < |s| :: NotAfter(s[i], s[j])
  }

  function Insert(s: seq<Event>, e: Event): (r: seq<Event>)
    ensures |r| == |s| + 1
  {
    if s == [] || NotAfter(e, s[0]) then [e] + s else [s[0]] + Insert(s[1..], e)
  }

  function SortEvents(s: seq<Event>): (r: seq<Event>)
    ensures |r| == |s|
  {
    if s == [] then [] else Insert(SortEvents(s[1..]), s[0])
  }

  /** How many elements satisfy f. */
  function CountIf<T>(s: seq<T>, f: T -> bool): nat {
    if s == [] then 0 else CountIf(s[1..], f) + if f(s[0]) then 1 else 0
  }

  lemma {:induction false} InsertInOrder(s: seq<Event>, e: Event)
    requires InOrder(s)
    ensures InOrder(Insert(s, e)) && forall x :: x in Insert(s, e) <==> x in s || x == e
  {
    if s != [] && !NotAfter(e, s[0]) {
      InsertInOrder(s[1..], e);
      var r := Insert(s[1..], e);
      forall j | 0 <= j < |r| ensures NotAfter(s[0], r[j]) {
        assert r[j] in r;
        if r[j] != e {
          var i :| 0 <= i < |s[1..]| && s[1..][i] == r[j];
          assert s[i + 1] == r[j];
        }
      }
      assert s == [s[0]] + s[1..];
    }
  }

  lemma {:induction false} SortInOrder(s: seq<Event>)
    ensures InOrder(SortEvents(s))
  {
    if s != [] {
      SortInOrder(s[1..]);
      InsertInOrder(SortEvents(s[1..]), s[0]);
    }
  }

  lemma {:induction false} CountInsert(s: seq<Event>, e: Event, f: Event -> bool)
    ensures CountIf(Insert(s, e), f) == CountIf(s, f) + if f(e) then 1 else 0
  {
    if s == [] || NotAfter(e, s[0]) {
      assert ([e] + s)[1..] == s;
    } else {
      CountInsert(s[1..], e, f);
      assert ([s[0]] + Insert(s[1..], e))[1..] == Insert(s[1..], e);
    }
  }

  /** Sorting keeps the counts. */
  lemma {:induction false} CountSorted(s: seq<Event>, f: Event -> bool)
    ensures CountIf(SortEvents(s), f) == CountIf(s, f)
  {
    if s != [] {
      CountSorted(s[1..], f);
      CountInsert(SortEvents(s[1..]), s[0], f);
    }
  }

  lemma {:induction false} CountConcat<T>(a: seq<T>, b: seq<T>, f: T -> bool)
    ensures CountIf(a + b, f) == CountIf(a, f) + CountIf(b, f)
  {
    if a == [] {
      assert a + b == b;
    } else {
      assert (a + b)[1..] == a[1..] + b;
      CountConcat(a[1..], b, f);
    }
  }

  lemma {:induction false} CountImplies<T>(s: seq<T>, f: T -> bool, g: T -> bool)
    requires forall i | 0 <= i < |s| :: f(s[i]) ==> g(s[i])
    ensures CountIf(s, f) <= CountIf(s, g)
  {
    if s != [] {
      CountImplies(s[1..], f, g);
    }
  }

  lemma {:induction false} CountNone<T>(s: seq<T>, f: T -> bool)
    requires forall i | 0 <= i < |s| :: !f(s[i])
    ensures CountIf(s, f) == 0
  {
    if s != [] {
      CountNone(s[1..], f);
    }
  }

  /** Opening and closing of every file. */
  function Events(files: seq<File>): seq<Event> {
    if files == [] then [] else [Event(files[0].smallest, true), Event(files[0].largest, false)] + Events(files[1..])
  }

  /** How many files hold x. */
  function Sharing(files: seq<File>, x: Key): nat {
    CountIf(files, Holding(x))
  }

  function Holding(x: Key): File -> bool {
    (f: File) => f.Holds(x)
  }

  function OpenUpTo(x: Key): Event -> bool {
    (e: Event) => e.open && e.key <= x
  }

  function ClosedBelow(x: Key): Event -> bool {
    (e: Event) => !e.open && e.key < x
  }

  /** Files that hold x have opened up to it and not closed before it. */
  lemma {:induction false} SharingIsDifference(files: seq<File>, x: Key)
    requires forall f <- files :: f.smallest <= f.largest
    ensures Sharing(files, x) == CountIf(Events(files), OpenUpTo(x)) - CountIf(Events(files), ClosedBelow(x))
  {
    if files != [] {
      SharingIsDifference(files[1..], x);
      assert files[0] in files;
      var two := [Event(files[0].smallest, true), Event(files[0].largest, false)];
      CountConcat(two, Events(files[1..]), OpenUpTo(x));
      CountConcat(two, Events(files[1..]), ClosedBelow(x));
      assert two[1..] == [two[1]] && two[1..][1..] == [];
    }
  }

  /** The running depth after a prefix of the events. */
  function Depth(s: seq<Event>): int {
    CountIf(s, Opens()) - CountIf(s, Closes())
  }

  function Opens(): Event -> bool {
    (e: Event) => e.open
  }

  function Closes(): Event -> bool {
    (e: Event) => !e.open
  }

  lemma DepthStep(s: seq<Event>, i: nat)
    requires i < |s|
    ensures Depth(s[..i + 1]) == Depth(s[..i]) + if s[i].open then 1 else -1
  {
    assert s[..i + 1] == s[..i] + [s[i]];
    CountSnoc(s[..i], s[i], Opens());
    CountSnoc(s[..i], s[i], Closes());
  }

  lemma CountSnoc<T>(s: seq<T>, x: T, f: T -> bool)
    ensures CountIf(s + [x], f) == CountIf(s, f) + if f(x) then 1 else 0
  {
    CountConcat(s, [x], f);
    assert [x][1..] == [];
  }

  /** Where a range opens, the depth is at most the number of files that hold the key. */
  lemma DepthAtOpen(s: seq<Event>, p: nat)
    requires InOrder(s) && p < |s| && s[p].open
    ensures Depth(s[..p + 1]) <= CountIf(s, OpenUpTo(s[p].key)) - CountIf(s, ClosedBelow(s[p].key))
  {
    var x, pre, post := s[p].key, s[..p + 1], s[p + 1..];
    assert s == pre + post;
    CountConcat(pre, post, OpenUpTo(x));
    CountConcat(pre, post, ClosedBelow(x));
    forall i | 0 <= i < |pre| ensures pre[i].key <= x {
      assert i == p || NotAfter(s[i], s[p]);
    }
    CountImplies(pre, Opens(), OpenUpTo(x));
    CountImplies(pre, ClosedBelow(x), Closes());
    forall i | 0 <= i < |post| ensures !ClosedBelow(x)(post[i]) {
      assert NotAfter(s[p], s[p + 1 + i]);
    }
    CountNone(post, ClosedBelow(x));
  }

  /** Where the last range opens at or before x, the depth is at least the number of files that hold x. */
  lemma DepthBeforePoint(s: seq<Event>, p: nat, x: Key)
    requires InOrder(s) && p < |s| && s[p].open && s[p].key <= x
    requires forall i | p < i < |s| :: !(s[i].open && s[i].key <= x)
    ensures Depth(s[..p + 1]) >= CountIf(s, OpenUpTo(x)) - CountIf(s, ClosedBelow(x))
  {
    var pre, post := s[..p + 1], s[p + 1..];
    assert s == pre + post;
    CountConcat(pre, post, OpenUpTo(x));
    CountConcat(pre, post, ClosedBelow(x));
    CountImplies(pre, OpenUpTo(x), Opens());
    forall i | 0 <= i < |pre| && !pre[i].open ensures pre[i].key < x {
      assert i < p && NotAfter(s[i], s[p]);
    }
    CountImplies(pre, Closes(), ClosedBelow(x));
    forall i | 0 <= i < |post| ensures !OpenUpTo(x)(post[i]) {
      assert post[i] == s[p + 1 + i];
    }
    CountNone(post, OpenUpTo(x));
  }

  lemma {:induction false} LastOpen(s: seq<Event>, x: Key) returns (p: nat)
    requires CountIf(s, OpenUpTo(x)) > 0
    ensures p < |s| && s[p].open && s[p].key <= x && forall i | p < i < |s| :: !(s[i].open && s[i].key <= x)
  {
    if CountIf(s[1..], OpenUpTo(x)) > 0 {
      var q := LastOpen(s[1..], x);
      p := q + 1;
      forall i | p < i < |s| ensures !(s[i].open && s[i].key <= x) {
        assert s[1..][i - 1] == s[i];
      }
    } else {
      p := 0;
      forall i | 0 < i < |s| ensures !(s[i].open && s[i].key <= x) {
        if s[i].open && s[i].key <= x {
          NotNone(s[1..], i - 1, OpenUpTo(x));
        }
      }
    }
  }

  lemma {:induction false} NotNone<T>(s: seq<T>, i: nat, f: T -> bool)
    requires i < |s| && f(s[i])
    ensures CountIf(s, f) > 0
  {
    if i > 0 {
      NotNone(s[1..], i - 1, f);
    }
  }

  /** best is the depth at some opening, and at no opening is it more. */
  ghost predicate IsBest(s: seq<Event>, n: nat, best: nat)
    requires n <= |s|
  {
    && (forall p | 0 <= p < n && s[p].open :: Depth(s[..p + 1]) <= best)
    && (best == 0 || exists p :: 0 <= p < n && s[p].open && Depth(s[..p + 1]) == best)
  }

  lemma BestStep(s: seq<Event>, i: nat, best: nat)
    requires i < |s| && IsBest(s, i, best) && Depth(s[..i]) <= best
    ensures Depth(s[..i + 1]) == Depth(s[..i]) + if s[i].open then 1 else -1
    ensures IsBest(s, i + 1, if s[i].open && best < Depth(s[..i]) + 1 then Depth(s[..i]) + 1 else best)
  {
    DepthStep(s, i);
  }

  /** l0_depth: the largest number of files whose ranges share a point. */
  method L0Depth(files: seq<File>) returns (best: nat)
    requires forall f <- files :: f.smallest <= f.largest
    ensures forall x: Key :: Sharing(files, x) <= best
    ensures best == 0 || exists x: Key :: Sharing(files, x) == best
  {
    hide Depth, SortEvents, Events, IsBest, Sharing;
    if |files| <= 1 {
      best := |files|;
      FewFiles(files);
      return;
    }
    var events := SortEvents(Events(files));
    SortInOrder(Events(files));
    var depth := 0;
    NoEvents(events);
    best := 0;
    var i: nat := 0;
    while i < |events|
      invariant i <= |events| && depth == Depth(events[..i]) <= best && IsBest(events, i, best)
    {
      BestStep(events, i, best);
      if events[i].open {
        depth := depth + 1;
        if best < depth {
          best := depth;
        }
      } else {
        depth := depth - 1;
      }
      i := i + 1;
    }
    BestIsSharing(files, events, best);
  }

  lemma NoEvents(s: seq<Event>)
    ensures Depth(s[..0]) == 0 && IsBest(s, 0, 0)
  {
  }

  lemma SharingCons(f: File, files: seq<File>, x: Key)
    ensures Sharing([f] + files, x) == Sharing(files, x) + if f.Holds(x) then 1 else 0
  {
    assert ([f] + files)[1..] == files;
    assert Holding(x)(f) == f.Holds(x);
  }

  lemma FewFiles(files: seq<File>)
    requires |files| <= 1 && forall f <- files :: f.smallest <= f.largest
    ensures forall x: Key :: Sharing(files, x) <= |files|
    ensures |files| == 0 || exists x: Key :: Sharing(files, x) == |files|
  {
    if |files| == 1 {
      assert files[0] in files && files == [files[0]];
      assert files == [files[0]] + [];
      forall x: Key ensures Sharing(files, x) == if files[0].Holds(x) then 1 else 0 {
        SharingCons(files[0], [], x);
      }
      assert Sharing(files, files[0].smallest) == 1;
    }
  }

  lemma BestIsSharing(files: seq<File>, s: seq<Event>, best: nat)
    requires (forall f <- files :: f.smallest <= f.largest) && s == SortEvents(Events(files)) && IsBest(s, |s|, best)
    ensures forall x: Key :: Sharing(files, x) <= best
    ensures best == 0 || exists x: Key :: Sharing(files, x) == best
  {
    SortInOrder(Events(files));
    forall x: Key ensures Sharing(files, x) == CountIf(s, OpenUpTo(x)) - CountIf(s, ClosedBelow(x)) {
      SharingIsDifference(files, x);
      CountSorted(Events(files), OpenUpTo(x));
      CountSorted(Events(files), ClosedBelow(x));
    }
    forall x: Key ensures Sharing(files, x) <= best {
      if CountIf(s, OpenUpTo(x)) > 0 {
        var p := LastOpen(s, x);
        DepthBeforePoint(s, p, x);
      }
    }
    if best > 0 {
      var p :| 0 <= p < |s| && s[p].open && Depth(s[..p + 1]) == best;
      DepthAtOpen(s, p);
      assert Sharing(files, s[p].key) == best;
    }
  }

  // ---- Replaying edits ----

  /** A level's files by number. */
  type Level = map<nat, File>

  datatype Place = Place(level: nat, number: nat)

  datatype NewFile = NewFile(place: Place, file: File)

  datatype Edit = Edit(deletedFiles: seq<Place>, newFiles: seq<NewFile>)

  /** No file number is on two levels. */
  ghost predicate Disjoint(levels: seq<Level>) {
    forall i, j | 0 <= i < j < |levels| :: levels[i].Keys !! levels[j].Keys
  }

  ghost predicate WellFormed(levels: seq<Level>) {
    forall i, n | 0 <= i < |levels| && n in levels[i] :: levels[i][n].smallest <= levels[i][n].largest
  }

  function Total(levels: seq<Level>): nat {
    if levels == [] then 0 else Total(levels[..|levels| - 1]) + |levels[|levels| - 1]|
  }

  /** The files of a level that hold x. */
  ghost function Holders(level: Level, x: Key): set<nat> {
    set n | n in level && level[n].Holds(x)
  }

  function Without(l: Level, number: nat): Level {
    map n: nat | n in l && n != number :: l[n]
  }

  function With(l: Level, number: nat, f: File): Level {
    l[number := f]
  }

  /** Deleting a file that must be where the edit says. */
  function Delete(levels: seq<Level>, p: Place): Option<seq<Level>> {
    if p.level >= |levels| || p.number !in levels[p.level] then None
    else
      Some(levels[p.level := Without(levels[p.level], p.number)])
  }

  /** Adding a file that must be nowhere yet. */
  function Add(levels: seq<Level>, f: NewFile): Option<seq<Level>> {
    if f.place.level >= |levels| || (exists i :: 0 <= i < |levels| && f.place.number in levels[i]) then None
    else Some(levels[f.place.level := With(levels[f.place.level], f.place.number, f.file)])
  }

  function DeleteAll(levels: seq<Level>, ps: seq<Place>): Option<seq<Level>> {
    if ps == [] then Some(levels)
    else
      match DeleteAll(levels, ps[..|ps| - 1])
      case None => None
      case Some(ls) => Delete(ls, ps[|ps| - 1])
  }

  function AddAll(levels: seq<Level>, fs: seq<NewFile>): Option<seq<Level>> {
    if fs == [] then Some(levels)
    else
      match AddAll(levels, fs[..|fs| - 1])
      case None => None
      case Some(ls) => Add(ls, fs[|fs| - 1])
  }

  /** The layout after an edit; None if the edit is not acceptable. */
  function After(levels: seq<Level>, e: Edit): Option<seq<Level>> {
    match DeleteAll(levels, e.deletedFiles)
    case None => None
    case Some(ls) => AddAll(ls, e.newFiles)
  }

  // ---- When an edit is acceptable, and what it makes of the layout ----

  /** The layout has this file number on this level. */
  ghost predicate At(levels: seq<Level>, p: Place) {
    p.level < |levels| && p.number in levels[p.level]
  }

  ghost function FileAt(levels: seq<Level>, p: Place): File
    requires At(levels, p)
  {
    levels[p.level][p.number]
  }

  /** Every deleted file is there, and none is deleted twice. */
  ghost predicate Deletable(levels: seq<Level>, ps: seq<Place>) {
    (forall p <- ps :: At(levels, p)) && forall i, j | 0 <= i < j < |ps| :: ps[i] != ps[j]
  }

  /** A layout without some places: what else was there stays as it was. */
  ghost predicate Left(levels: seq<Level>, ps: seq<Place>, after: seq<Level>) {
    && |after| == |levels|
    && forall p: Place :: (At(after, p) <==> At(levels, p) && p !in ps)
                          && (At(after, p) ==> FileAt(after, p) == FileAt(levels, p))
  }

  lemma DeleteOne(levels: seq<Level>, p: Place)
    ensures Delete(levels, p).Some? <==> At(levels, p)
    ensures Delete(levels, p).Some? ==> Left(levels, [p], Delete(levels, p).value)
  {
  }

  lemma LeftMore(levels: seq<Level>, ps: seq<Place>, between: seq<Level>, p: Place, after: seq<Level>)
    requires Left(levels, ps, between) && Left(between, [p], after)
    ensures Left(levels, ps + [p], after)
  {
    hide At, FileAt;
  }

  /** Deleting succeeds exactly if every file is where the edit says, and takes away exactly those. */
  lemma {:induction false} DeletesIff(levels: seq<Level>, ps: seq<Place>)
    ensures DeleteAll(levels, ps).Some? <==> Deletable(levels, ps)
    ensures DeleteAll(levels, ps).Some? ==> Left(levels, ps, DeleteAll(levels, ps).value)
  {
    hide Delete, At, FileAt;
    if ps != [] {
      var init, p := ps[..|ps| - 1], ps[|ps| - 1];
      assert ps == init + [p];
      DeletesIff(levels, init);
      if Deletable(levels, init) {
        var between := DeleteAll(levels, init).value;
        DeleteOne(between, p);
        if Delete(between, p).Some? {
          LeftMore(levels, init, between, p, Delete(between, p).value);
        }
      }
    }
  }

  /** The number is on no level. */
  ghost predicate Absent(levels: seq<Level>, number: nat) {
    forall p: Place :: p.number == number ==> !At(levels, p)
  }

  /** Every added number is on no level and given to one file, and the levels exist. */
  ghost predicate Addable(levels: seq<Level>, fs: seq<NewFile>) {
    && (forall f <- fs :: f.place.level < |levels| && Absent(levels, f.place.number))
    && (forall i, j | 0 <= i < j < |fs| :: fs[i].place.number != fs[j].place.number)
  }

  ghost predicate NewAt(fs: seq<NewFile>, p: Place) {
    exists f :: f in fs && f.place == p
  }

  /** A layout with some files more. */
  ghost predicate Joined(levels: seq<Level>, fs: seq<NewFile>, after: seq<Level>) {
    && |after| == |levels|
    && (forall p: Place :: At(after, p) <==> At(levels, p) || NewAt(fs, p))
    && (forall p: Place :: At(levels, p) ==> At(after, p) && FileAt(after, p) == FileAt(levels, p))
    && (forall f <- fs :: At(after, f.place) && FileAt(after, f.place) == f.file)
  }

  lemma AddOne(levels: seq<Level>, f: NewFile)
    ensures Add(levels, f).Some? <==> f.place.level < |levels| && Absent(levels, f.place.number)
    ensures Add(levels, f).Some? ==> Joined(levels, [f], Add(levels, f).value)
  {
    if i: nat :| i < |levels| && f.place.number in levels[i] {
      assert At(levels, Place(i, f.place.number));
    }
    if Add(levels, f).Some? {
      var after := Add(levels, f).value;
      forall p: Place ensures At(after, p) <==> At(levels, p) || NewAt([f], p) {
        assert p == f.place ==> f in [f];
      }
    }
  }

  lemma JoinedMore(levels: seq<Level>, fs: seq<NewFile>, between: seq<Level>, f: NewFile, after: seq<Level>)
    requires Joined(levels, fs, between) && Joined(between, [f], after)
    ensures Joined(levels, fs + [f], after)
  {
    hide At, FileAt;
    forall p: Place ensures NewAt(fs + [f], p) <==> NewAt(fs, p) || NewAt([f], p) {
      if NewAt(fs, p) {
        var g :| g in fs && g.place == p;
        assert g in fs + [f];
      }
      if NewAt([f], p) {
        assert f in fs + [f];
      }
    }
  }

  /** After some files were added, a number is free if it was and none of them has it. */
  lemma StillAbsent(levels: seq<Level>, fs: seq<NewFile>, after: seq<Level>, number: nat)
    requires Joined(levels, fs, after)
    ensures Absent(after, number) <==> Absent(levels, number) && forall f <- fs :: f.place.number != number
  {
    hide At, FileAt;
    if Absent(after, number) {
      forall f | f in fs ensures f.place.number != number {
        assert At(after, f.place);
      }
    }
  }

  lemma AddableSnoc(levels: seq<Level>, fs: seq<NewFile>, f: NewFile)
    ensures Addable(levels, fs + [f]) <==>
            Addable(levels, fs) && f.place.level < |levels| && Absent(levels, f.place.number)
            && forall g <- fs :: g.place.number != f.place.number
  {
    hide Absent;
    var all := fs + [f];
    assert forall i | 0 <= i < |fs| :: all[i] == fs[i];
    if Addable(levels, all) {
      assert f in all && forall g <- fs :: g in all;
      forall g | g in fs ensures g.place.number != f.place.number {
        var i :| 0 <= i < |fs| && fs[i] == g;
        assert all[i].place.number != all[|fs|].place.number;
      }
    }
  }

  /** Adding succeeds exactly if every number is new, and puts exactly those files where the edit says. */
  lemma {:induction false} AddsIff(levels: seq<Level>, fs: seq<NewFile>)
    ensures AddAll(levels, fs).Some? <==> Addable(levels, fs)
    ensures AddAll(levels, fs).Some? ==> Joined(levels, fs, AddAll(levels, fs).value)
  {
    hide Add, At, FileAt, Absent, Addable;
    if fs == [] {
      NothingAdded(levels);
    } else {
      var init, f := fs[..|fs| - 1], fs[|fs| - 1];
      assert fs == init + [f];
      AddsIff(levels, init);
      AddableSnoc(levels, init, f);
      if Addable(levels, init) {
        var between := AddAll(levels, init).value;
        AddOne(between, f);
        StillAbsent(levels, init, between, f.place.number);
        if Add(between, f).Some? {
          JoinedMore(levels, init, between, f, Add(between, f).value);
        }
      }
    }
  }

  lemma NothingAdded(levels: seq<Level>)
    ensures Addable(levels, []) && Joined(levels, [], levels)
  {
  }

  /** Nothing has the number but what the edit deletes. */
  ghost predicate Freed(levels: seq<Level>, ps: seq<Place>, number: nat) {
    forall p: Place :: p.number == number && At(levels, p) ==> p in ps
  }

  /**
   * An edit is acceptable exactly if the files it deletes are where it says, none
   * twice, and the files it adds go to levels that exist, under numbers that no other
   * file has.
   */
  lemma EditIff(levels: seq<Level>, e: Edit)
    ensures After(levels, e).Some? <==>
            && Deletable(levels, e.deletedFiles)
            && (forall f <- e.newFiles :: f.place.level < |levels| && Freed(levels, e.deletedFiles, f.place.number))
            && (forall i, j | 0 <= i < j < |e.newFiles| :: e.newFiles[i].place.number != e.newFiles[j].place.number)
  {
    hide At, FileAt;
    DeletesIff(levels, e.deletedFiles);
    if Deletable(levels, e.deletedFiles) {
      var between := DeleteAll(levels, e.deletedFiles).value;
      AddsIff(between, e.newFiles);
      forall f | f in e.newFiles
        ensures Freed(levels, e.deletedFiles, f.place.number) <==> Absent(between, f.place.number)
      {
      }
    }
  }

  /** Then a file is there exactly if the edit adds it, or it was there and the edit does not delete it. */
  lemma EditMeans(levels: seq<Level>, e: Edit)
    requires After(levels, e).Some?
    ensures var after := After(levels, e).value;
            && |after| == |levels|
            && (forall p: Place ::
                  At(after, p) <==> NewAt(e.newFiles, p) || (At(levels, p) && p !in e.deletedFiles))
            && (forall p: Place :: At(levels, p) && p !in e.deletedFiles ==>
                  At(after, p) && FileAt(after, p) == FileAt(levels, p))
            && (forall f <- e.newFiles :: At(after, f.place) && FileAt(after, f.place) == f.file)
  {
    hide At, FileAt;
    DeletesIff(levels, e.deletedFiles);
    AddsIff(DeleteAll(levels, e.deletedFiles).value, e.newFiles);
  }

  lemma {:induction false} TotalUpdate(levels: seq<Level>, i: nat, l: Level)
    requires i < |levels|
    ensures Total(levels[i := l]) == Total(levels) - |levels[i]| + |l|
  {
    var init, last := levels[..|levels| - 1], levels[|levels| - 1];
    if i == |levels| - 1 {
      assert levels[i := l][..|levels| - 1] == init;
    } else {
      TotalUpdate(init, i, l);
      assert levels[i := l][..|levels| - 1] == init[i := l];
      TotalAtLeast(init, i);
    }
  }

  lemma {:induction false} TotalAtLeast(levels: seq<Level>, i: nat)
    requires i < |levels|
    ensures |levels[i]| <= Total(levels)
  {
    if i < |levels| - 1 {
      TotalAtLeast(levels[..|levels| - 1], i);
    }
  }

  lemma DeleteKeeps(levels: seq<Level>, p: Place)
    requires Disjoint(levels) && WellFormed(levels) && Delete(levels, p).Some?
    ensures var ls := Delete(levels, p).value;
            Disjoint(ls) && WellFormed(ls) && |ls| == |levels| && Total(ls) == Total(levels) - 1
  {
    var l := levels[p.level];
    var rest := Without(l, p.number);
    assert rest.Keys == l.Keys - {p.number};
    assert |l.Keys| == |l| && |rest.Keys| == |rest|;
    TotalUpdate(levels, p.level, rest);
  }

  lemma AddKeeps(levels: seq<Level>, f: NewFile)
    requires Disjoint(levels) && WellFormed(levels) && f.file.smallest <= f.file.largest && Add(levels, f).Some?
    ensures var ls := Add(levels, f).value;
            Disjoint(ls) && WellFormed(ls) && |ls| == |levels| && Total(ls) == Total(levels) + 1
  {
    var l := levels[f.place.level];
    var more := With(l, f.place.number, f.file);
    assert more.Keys == l.Keys + {f.place.number};
    assert |l.Keys| == |l| && |more.Keys| == |more|;
    TotalUpdate(levels, f.place.level, more);
  }

  ghost predicate Bounded(shape: seq<Level>, l0: nat, files: nat, depth: nat) {
    shape != [] && |shape[0]| <= l0 && Total(shape) <= files && forall x: Key :: |Holders(shape[0], x)| <= depth
  }

  /** The recorded maxima bound every layout so far, and each is reached by one of them. */
  ghost predicate Recorded(shapes: seq<seq<Level>>, l0: nat, files: nat, depth: nat) {
    && (forall s :: s in shapes ==> Bounded(s, l0, files, depth))
    && (l0 == 0 || exists s :: s in shapes && s != [] && |s[0]| == l0)
    && (files == 0 || exists s :: s in shapes && Total(s) == files)
    && (depth == 0 || exists s, x: Key :: s in shapes && s != [] && |Holders(s[0], x)| == depth)
  }

  /** One more layout, and the maxima with it. */
  lemma RecordOne(shapes: seq<seq<Level>>, shape: seq<Level>, l0: nat, files: nat, depth: nat, d: nat)
    requires Recorded(shapes, l0, files, depth) && shape != []
    requires forall x: Key :: |Holders(shape[0], x)| <= d
    requires d == 0 || exists x: Key :: |Holders(shape[0], x)| == d
    ensures Recorded(shapes + [shape], Max(l0, |shape[0]|), Max(files, Total(shape)), Max(depth, d))
  {
    hide Holders, Total;
    var all := shapes + [shape];
    assert shape in all && forall s :: s in all <==> s in shapes || s == shape;
  }

  class Replay {
    const numLevels: nat
    var levels: seq<Level>
    var added: nat
    var deleted: nat
    var maxL0: nat
    var maxFiles: nat
    var maxL0Depth: nat
    /** The layout after each edit so far. */
    ghost var shapes: seq<seq<Level>>

    constructor (numLevels: nat)
      requires numLevels > 0
      ensures Valid() && this.numLevels == numLevels && shapes == [] && added == 0 && deleted == 0
    {
      this.numLevels := numLevels;
      levels := seq(numLevels, _ => map[]);
      added, deleted, maxL0, maxFiles, maxL0Depth, shapes := 0, 0, 0, 0, 0, [];
      new;
      Nothing(levels);
    }

    lemma Nothing(ls: seq<Level>)
      requires forall i | 0 <= i < |ls| :: ls[i] == map[]
      ensures Total(ls) == 0 && Disjoint(ls) && WellFormed(ls)
    {
      if ls != [] {
        Nothing(ls[..|ls| - 1]);
      }
    }

    /** Every number on at most one level, and as many files as were added and not deleted. */
    ghost predicate Consistent()
      reads this`levels, this`added, this`deleted
    {
      |levels| == numLevels > 0 && Disjoint(levels) && WellFormed(levels) && Total(levels) + deleted == added
    }

    ghost predicate Valid()
      reads this
    {
      Consistent() && Recorded(shapes, maxL0, maxFiles, maxL0Depth)
    }

    /** The files that an edit deletes. */
    method ApplyDeletes(ps: seq<Place>) returns (ok: bool)
      requires Consistent()
      modifies this`levels, this`deleted
      ensures Consistent()
      ensures ok <==> DeleteAll(old(levels), ps).Some?
      ensures ok ==> levels == DeleteAll(old(levels), ps).value && deleted == old(deleted) + |ps|
    {
      hide Disjoint, WellFormed, Total, Delete;
      var i := 0;
      while i < |ps|
        invariant 0 <= i <= |ps| && Consistent() && deleted == old(deleted) + i
        invariant DeleteAll(old(levels), ps[..i]) == Some(levels)
      {
        assert ps[..i + 1][..i] == ps[..i];
        var next := Delete(levels, ps[i]);
        if next.None? {
          DeleteFails(old(levels), ps, i + 1);
          return false;
        }
        DeleteKeeps(levels, ps[i]);
        levels, deleted, i := next.value, deleted + 1, i + 1;
      }
      assert ps[..i] == ps;
      return true;
    }

    /** The files that an edit adds. */
    method ApplyAdds(fs: seq<NewFile>) returns (ok: bool)
      requires Consistent() && forall f <- fs :: f.file.smallest <= f.file.largest
      modifies this`levels, this`added
      ensures Consistent()
      ensures ok <==> AddAll(old(levels), fs).Some?
      ensures ok ==> levels == AddAll(old(levels), fs).value && added == old(added) + |fs|
    {
      hide Disjoint, WellFormed, Total, Add;
      var i := 0;
      while i < |fs|
        invariant 0 <= i <= |fs| && Consistent() && added == old(added) + i
        invariant AddAll(old(levels), fs[..i]) == Some(levels)
      {
        assert fs[..i + 1][..i] == fs[..i] && fs[i] in fs;
        var next := Add(levels, fs[i]);
        if next.None? {
          AddFails(old(levels), fs, i + 1);
          return false;
        }
        AddKeeps(levels, fs[i]);
        levels, added, i := next.value, added + 1, i + 1;
      }
      assert fs[..i] == fs;
      return true;
    }

    /** Replay.apply; false is a ManifestError. */
    method Apply(e: Edit) returns (ok: bool)
      requires Valid() && forall f <- e.newFiles :: f.file.smallest <= f.file.largest
      modifies this
      ensures Valid()
      ensures ok <==> After(old(levels), e).Some?
      ensures ok ==> levels == After(old(levels), e).value && shapes == old(shapes) + [levels]
      ensures ok ==> added == old(added) + |e.newFiles| && deleted == old(deleted) + |e.deletedFiles|
    {
      hide Disjoint, Total, DeleteAll, AddAll, Holders, Recorded;
      ok := ApplyDeletes(e.deletedFiles);
      if !ok {
        return;
      }
      ok := ApplyAdds(e.newFiles);
      if !ok {
        return;
      }
      var files := ListOf(levels[0]);
      var depth := L0Depth(files);
      RecordOne(shapes, levels, maxL0, maxFiles, maxL0Depth, depth);
      maxL0 := Max(maxL0, |levels[0]|);
      maxFiles := Max(maxFiles, Total(levels));
      maxL0Depth := Max(maxL0Depth, depth);
      shapes := shapes + [levels];
    }
  }

  lemma {:induction false} DeleteFails(levels: seq<Level>, ps: seq<Place>, i: nat)
    requires i <= |ps| && DeleteAll(levels, ps[..i]) == None
    ensures DeleteAll(levels, ps) == None
    decreases |ps| - i
  {
    if i == |ps| {
      assert ps[..i] == ps;
    } else {
      assert ps[..i + 1][..i] == ps[..i];
      DeleteFails(levels, ps, i + 1);
    }
  }

  lemma {:induction false} AddFails(levels: seq<Level>, fs: seq<NewFile>, i: nat)
    requires i <= |fs| && AddAll(levels, fs[..i]) == None
    ensures AddAll(levels, fs) == None
    decreases |fs| - i
  {
    if i == |fs| {
      assert fs[..i] == fs;
    } else {
      assert fs[..i + 1][..i] == fs[..i];
      AddFails(levels, fs, i + 1);
    }
  }

  lemma ListNone(level: Level)
    ensures forall x: Key :: Sharing([], x) == |Holders(level, x) - level.Keys|
  {
    forall x: Key ensures Sharing([], x) == |Holders(level, x) - level.Keys| {
      assert Holders(level, x) - level.Keys == {};
    }
  }

  lemma ListOne(level: Level, files: seq<File>, left: set<nat>, n: nat, x: Key)
    requires left <= level.Keys && n in left && Sharing(files, x) == |Holders(level, x) - left|
    ensures Sharing([level[n]] + files, x) == |Holders(level, x) - (left - {n})|
  {
    SharingCons(level[n], files, x);
    var before, after := Holders(level, x) - left, Holders(level, x) - (left - {n});
    assert after == before + if level[n].Holds(x) then {n} else {};
  }

  /** A level's files as a list, in any order. */
  method ListOf(level: Level) returns (files: seq<File>)
    requires forall n :: n in level ==> level[n].smallest <= level[n].largest
    ensures forall f <- files :: f.smallest <= f.largest
    ensures forall x: Key :: Sharing(files, x) == |Holders(level, x)|
  {
    hide Sharing, Holders;
    files := [];
    var left := level.Keys;
    ListNone(level);
    while left != {}
      invariant left <= level.Keys
      invariant forall f <- files :: f.smallest <= f.largest
      invariant forall x: Key :: Sharing(files, x) == |Holders(level, x) - left|
      decreases |left|
    {
      var n :| n in left;
      forall x: Key ensures Sharing([level[n]] + files, x) == |Holders(level, x) - (left - {n})| {
        ListOne(level, files, left, n, x);
      }
      files, left := [level[n]] + files, left - {n};
    }
    forall x: Key ensures Holders(level, x) - left == Holders(level, x) {
    }
  }
}
