/**
 The two cursor-driven loops of the MMS utility: reading a journal page by page, and listing the
 files of a server page by page. How many entries fit into a page is up to the server.
 */
module Paging {
  import opened Common

  // ---------- The journal ----------

  datatype Entry = Entry(id: seq<bv8>, time: nat, text: string)

  datatype Page<T> = Page(items: seq<T>, moreFollows: bool)

  predicate IsAt(journal: seq<Entry>, k: int, id: seq<bv8>, time: nat) {
    0 <= k < |journal| && journal[k].id == id && journal[k].time == time
  }

  /** Entry id and occurrence time together single out an entry. */
  ghost predicate UniqueCursors(journal: seq<Entry>) {
    forall k, l, id, time :: IsAt(journal, k, id, time) && IsAt(journal, l, id, time) ==> k == l
  }

  /**
   A page is a contiguous run that begins strictly after the cursor, and the flag says whether some
   entries remain behind it.
   */
  ghost predicate PageAfter(journal: seq<Entry>, id: seq<bv8>, time: nat, page: Page<Entry>) {
    exists k ::
      && IsAt(journal, k, id, time)
      && var n := |page.items|;
      && k + 1 + n <= |journal| && page.items == journal[k + 1..k + 1 + n]
      && (page.moreFollows <==> k + 1 + n < |journal|)
  }

  function Smaller(m: nat, n: nat): nat { if m < n then m else n }

  /**
   A server chooses its page sizes freely, here by a function of the number of the request, and a
   request may also fail.
   */
  function ReadStartAfter(journal: seq<Entry>, id: seq<bv8>, time: nat, sizes: nat -> Option<nat>, request: nat)
    : (page: Option<Page<Entry>>)
    requires exists k :: IsAt(journal, k, id, time)
    requires UniqueCursors(journal)
    ensures page.None? <==> sizes(request).None?
    ensures page.Some? ==> PageAfter(journal, id, time, page.value)
    ensures page.Some? && page.value.items == [] ==>
              sizes(request) == Some(0) || IsAt(journal, |journal| - 1, id, time)
  {
    var k :| IsAt(journal, k, id, time);
    match sizes(request)
    case None => None
    case Some(size) =>
      var n := Smaller(size, |journal| - k - 1);
      Some(Page(journal[k + 1..k + 1 + n], k + 1 + n < |journal|))
  }

  /** The request is answered with `least` items or more. */
  predicate Served(sizes: nat -> Option<nat>, least: nat, request: nat) {
    sizes(request).Some? && sizes(request).value >= least
  }

  predicate AllServed(sizes: nat -> Option<nat>, least: nat, n: nat) {
    forall k :: 0 <= k < n ==> Served(sizes, least, k)
  }

  /** How many of `left` items the answer to a request brings. */
  function Brought(sizes: nat -> Option<nat>, left: nat, request: nat): (n: nat)
    ensures n <= left
  {
    match sizes(request)
    case None => 0
    case Some(size) => Smaller(size, left)
  }

  /** How many of `left` items are left when request `k` comes. */
  function Left(sizes: nat -> Option<nat>, left: nat, k: nat): (rest: nat)
    ensures rest <= left
  {
    if k == 0 then left
    else
      var before := Left(sizes, left, k - 1);
      before - Brought(sizes, before, k - 1)
  }

  /** Request `k` is the first that fails or is answered with too few items, and items are left. */
  predicate Starves(sizes: nat -> Option<nat>, least: nat, left: nat, k: nat) {
    AllServed(sizes, least, k) && Left(sizes, left, k) > 0 && !Served(sizes, least, k)
  }

  ghost predicate SomeStarves(sizes: nat -> Option<nat>, least: nat, left: nat) {
    exists k: nat :: Starves(sizes, least, left, k)
  }

  ghost function StarvedAt(sizes: nat -> Option<nat>, least: nat, left: nat): (k: nat)
    requires SomeStarves(sizes, least, left)
    ensures Starves(sizes, least, left, k)
  {
    var k: nat :| Starves(sizes, least, left, k);
    k
  }

  lemma {:induction false} LeftFalls(sizes: nat -> Option<nat>, left: nat, j: nat, k: nat)
    requires j <= k
    ensures Left(sizes, left, k) <= Left(sizes, left, j)
  {
    if j < k {
      LeftFalls(sizes, left, j, k - 1);
    }
  }

  /** Requests end with the first that is not served, or when nothing is left. */
  lemma Ends(sizes: nat -> Option<nat>, least: nat, left: nat, k: nat)
    requires AllServed(sizes, least, k) && (Left(sizes, left, k) == 0 || !Served(sizes, least, k))
    ensures SomeStarves(sizes, least, left) <==> Left(sizes, left, k) > 0
    ensures SomeStarves(sizes, least, left) ==> StarvedAt(sizes, least, left) == k
  {
    if Left(sizes, left, k) > 0 {
      assert Starves(sizes, least, left, k);
    } else {
      forall j: nat ensures !Starves(sizes, least, left, j) {
        if k <= j {
          LeftFalls(sizes, left, k, j);
        }
      }
    }
  }

  lemma LeftNext(sizes: nat -> Option<nat>, least: nat, left: nat, k: nat)
    requires AllServed(sizes, least, k) && Served(sizes, least, k)
    ensures AllServed(sizes, least, k + 1)
    ensures Left(sizes, left, k + 1) == Left(sizes, left, k) - Brought(sizes, Left(sizes, left, k), k)
  {
  }

  /** The answer to a request behind the first `p` entries. */
  ghost predicate IsAnswer(journal: seq<Entry>, p: nat, sizes: nat -> Option<nat>, request: nat,
                           entries: Option<seq<Entry>>, moreFollows: bool)
    requires p <= |journal|
  {
    && (entries.Some? <==> Served(sizes, 0, request))
    && (entries.Some? ==>
          var n := Brought(sizes, |journal| - p, request);
          entries.value == journal[p..p + n] && (moreFollows <==> p + n < |journal|))
  }

  method RequestNext(journal: seq<Entry>, id: seq<bv8>, time: nat, sizes: nat -> Option<nat>, request: nat,
                     ghost p: nat)
    returns (entries: Option<seq<Entry>>, moreFollows: bool)
    requires UniqueCursors(journal) && 0 < p < |journal| && IsAt(journal, p - 1, id, time)
    ensures IsAnswer(journal, p, sizes, request, entries, moreFollows)
  {
    var page := ReadStartAfter(journal, id, time, sizes, request);
    match page
    case None => return None, true;
    case Some(answer) => return Some(answer.items), answer.moreFollows;
  }

  /** An answer has entries exactly if the request is served, and it goes on where the output ends. */
  lemma AnswerPrinted(journal: seq<Entry>, a: nat, p: nat, sizes: nat -> Option<nat>, request: nat,
                      entries: seq<Entry>, moreFollows: bool)
    requires a <= p < |journal| && IsAnswer(journal, p, sizes, request, Some(entries), moreFollows)
    ensures entries != [] <==> Served(sizes, 1, request)
    ensures |entries| == Brought(sizes, |journal| - p, request)
    ensures journal[a..p] + entries == journal[a..p + |entries|]
    ensures entries != [] ==>
              IsAt(journal, p + |entries| - 1, entries[|entries| - 1].id, entries[|entries| - 1].time)
    ensures moreFollows <==> p + |entries| < |journal|
  {
  }

  /**
   The do-while loop. The first page is the run from `a` to `b` that the time range query returned.
   If it says that more follows, everything from `a` to the end of the journal is printed, each
   entry once and in order; else the first page is printed and nothing more. The round in which
   the flag has just become false still prints its page.

   The loop takes the last entry of each page without looking whether there is one. So it dies on a
   null entry exactly when the first page is empty, as for a time range without entries, or when some
   request fails or brings nothing while entries are left. What was left then is not printed.
   */
  method ReadJournal(journal: seq<Entry>, a: nat, b: nat, more: bool, sizes: nat -> Option<nat>)
    returns (printed: seq<Entry>, requests: nat, nullEntry: bool)
    requires UniqueCursors(journal) && a <= b <= |journal| && (more ==> b < |journal|)
    ensures
      var rest := |journal| - b;
      && (nullEntry <==> a == b || (more && SomeStarves(sizes, 1, rest)))
      && (!nullEntry ==> printed == if more then journal[a..] else journal[a..b])
      && (a == b ==> printed == [])
      && (a < b && more && SomeStarves(sizes, 1, rest) ==>
            var k := StarvedAt(sizes, 1, rest);
            printed == journal[a..|journal| - Left(sizes, rest, k)] && requests == k + 1)
    ensures requests == 0 <==> a == b || !more
  {
    printed, requests, nullEntry := [], 0, false;
    ghost var rest := |journal| - b;
    var first := journal[a..b];
    var journalEntries, moreFollows := Some(first), more;
    ghost var p := a;
    while true
      invariant a <= p <= |journal| && printed == journal[a..p]
      invariant requests == 0 ==> p == a && printed == []
      invariant requests == 0 ==> journalEntries == Some(first) && moreFollows == more
      invariant requests > 0 ==> a < b && more && p < |journal|
      invariant requests > 0 ==> AllServed(sizes, 1, requests - 1) && Left(sizes, rest, requests - 1) == |journal| - p
      invariant requests > 0 ==> IsAnswer(journal, p, sizes, requests - 1, journalEntries, moreFollows)
      decreases |journal| - p
    {
      var readNext := false;
      if journalEntries.None? || journalEntries.value == [] {
        if requests == 0 {
          assert |journal[a..b]| == 0;
        } else {
          Ends(sizes, 1, rest, requests - 1);
        }
        return printed, requests, true;
      }
      if requests > 0 {
        AnswerPrinted(journal, a, p, sizes, requests - 1, journalEntries.value, moreFollows);
        LeftNext(sizes, 1, rest, requests - 1);
      }
      var lastEntry := journalEntries.value[|journalEntries.value| - 1];
      var nextEntryId, nextTimestamp := lastEntry.id, lastEntry.time;
      printed := printed + journalEntries.value;
      p := p + |journalEntries.value|;
      if moreFollows {
        journalEntries, moreFollows := RequestNext(journal, nextEntryId, nextTimestamp, sizes, requests, p);
        requests := requests + 1;
        readNext := true;
      }
      if !moreFollows && !readNext {
        break;
      }
    }
    if more {
      Ends(sizes, 1, rest, requests);
    }
  }

  function OneThenNone(request: nat): Option<nat> {
    if request == 0 then Some(1) else None
  }

  lemma SecondRequestStarves()
    ensures SomeStarves(OneThenNone, 1, 2) && StarvedAt(OneThenNone, 1, 2) == 1
  {
    assert Left(OneThenNone, 2, 0) == 2;
    assert Left(OneThenNone, 2, 1) == 1;
    assert AllServed(OneThenNone, 1, 1) && !Served(OneThenNone, 1, 1);
    Ends(OneThenNone, 1, 2, 1);
  }

  /**
   A time range without entries, and three entries in pages of one whose second further request
   fails: both readings meet a null entry, the second after two entries.
   */
  method TwoReadingsMeetNull(journal: seq<Entry>) returns (quiet: bool, broken: bool, printed: seq<Entry>)
    requires UniqueCursors(journal) && |journal| == 3
    ensures quiet && broken && printed == journal[..2]
  {
    SecondRequestStarves();
    var requests;
    printed, requests, quiet := ReadJournal(journal, 1, 1, false, OneThenNone);
    printed, requests, broken := ReadJournal(journal, 0, 1, true, OneThenNone);
    assert Left(OneThenNone, 2, 1) == 1;
  }

  // ---------- The file directory ----------

  const NAME_BUFFER := 300

  /** The C string at the start of a buffer: everything before the first zero. */
  function CString(s: seq<char>): string {
    if s == [] || s[0] == '\0' then [] else [s[0]] + CString(s[1..])
  }

  lemma {:induction false} CStringOf(name: string, rest: seq<char>)
    requires '\0' !in name
    ensures CString(name + ['\0'] + rest) == name
  {
    if name == [] {
      assert name + ['\0'] + rest == ['\0'] + rest;
    } else {
      CStringOf(name[1..], rest);
      assert (name + ['\0'] + rest)[1..] == name[1..] + ['\0'] + rest;
    }
  }

  method StrCpy(buffer: array<char>, name: string)
    requires |name| < buffer.Length && '\0' !in name
    modifies buffer
    ensures CString(buffer[..]) == name
  {
    for i := 0 to |name|
      invariant buffer[..i] == name[..i]
    {
      buffer[i] := name[i];
    }
    buffer[|name|] := '\0';
    assert buffer[..] == name + ['\0'] + buffer[|name| + 1..];
    CStringOf(name, buffer[|name| + 1..]);
  }

  /** A non-empty name without zeros that fits the client's buffer. */
  predicate Fits(name: string) {
    0 < |name| < NAME_BUFFER && '\0' !in name
  }

  predicate Listed(files: seq<string>, i: nat)
    requires i < |files|
  {
    Fits(files[i]) && files[i] !in files[..i]
  }

  /** Each name fits and has not been there before. */
  predicate Listable(files: seq<string>) {
    forall i :: 0 <= i < |files| ==> Listed(files, i)
  }

  /** Where the server resumes: an empty name counts as none, an unknown one skips everything. */
  function ResumeAt(files: seq<string>, continueAfter: string): (k: nat)
    ensures k <= |files|
    ensures continueAfter == [] ==> k == 0
    ensures continueAfter != [] && k < |files| ==> k > 0 && files[k - 1] == continueAfter
    ensures continueAfter != [] ==> forall i :: 0 <= i < k - 1 ==> files[i] != continueAfter
    ensures continueAfter != [] && continueAfter in files ==> k > 0 && files[k - 1] == continueAfter
  {
    if continueAfter == [] || files == [] then 0
    else if files[0] == continueAfter then 1
    else
      assert files == [files[0]] + files[1..];
      ResumeAt(files[1..], continueAfter) + 1
  }

  /** The page behind the cursor, unless the request fails. */
  function DirectoryPage(files: seq<string>, continueAfter: string, sizes: nat -> Option<nat>, request: nat)
    : (page: Option<Page<string>>)
  {
    var k := ResumeAt(files, continueAfter);
    match sizes(request)
    case None => None
    case Some(size) =>
      var n := Smaller(size, |files| - k);
      Some(Page(files[k..k + n], k + n < |files|))
  }

  /** The handler of the entries of one page: prints each name and leaves the last one in the buffer. */
  method HandleEntries(lastName: array<char>, names: seq<string>)
    requires lastName.Length == NAME_BUFFER && forall n :: n in names ==> Fits(n)
    modifies lastName
    ensures CString(lastName[..]) == if names == [] then old(CString(lastName[..])) else names[|names| - 1]
  {
    for i := 0 to |names|
      invariant CString(lastName[..]) == if i == 0 then old(CString(lastName[..])) else names[i - 1]
    {
      assert names[i] in names;
      StrCpy(lastName, names[i]);
    }
  }

  /** `lastName` as it is declared: only its first character is set. */
  method NewNameBuffer() returns (lastName: array<char>)
    ensures fresh(lastName) && lastName.Length == NAME_BUFFER && CString(lastName[..]) == []
  {
    lastName := new char[NAME_BUFFER](_ => ' ');
    lastName[0] := '\0';
  }

  predicate CursorAfter(files: seq<string>, continueAfter: string, k: nat)
    requires k <= |files|
  {
    continueAfter == if k == 0 then [] else files[k - 1]
  }

  /** Behind the first `k` names is where the server resumes. */
  lemma ResumesBehind(files: seq<string>, continueAfter: string, k: nat)
    requires Listable(files) && k <= |files| && CursorAfter(files, continueAfter, k)
    ensures ResumeAt(files, continueAfter) == k
  {
    if k > 0 {
      assert Listed(files, k - 1);
      forall i | 0 <= i < k - 1 ensures files[i] != continueAfter {
        assert files[..k - 1][i] in files[..k - 1];
      }
    }
  }

  /** The page behind the first `k` names. */
  method RequestPage(files: seq<string>, continueAfter: string, sizes: nat -> Option<nat>, request: nat, ghost k: nat)
    returns (page: Option<Page<string>>)
    requires Listable(files) && k <= |files| && CursorAfter(files, continueAfter, k)
    ensures page.Some? <==> Served(sizes, 0, request)
    ensures page.Some? ==>
              var n := |page.value.items|;
              && n == Brought(sizes, |files| - k, request) && page.value.items == files[k..k + n]
              && (page.value.moreFollows <==> k + n < |files|)
  {
    ResumesBehind(files, continueAfter, k);
    page := DirectoryPage(files, continueAfter, sizes, request);
  }

  /**
   One request behind the first `k` names; the handler sees its entries one by one. A failed request
   shows no entries and says that no more follows.
   */
  method GetFileDirectory(files: seq<string>, continueAfter: string, lastName: array<char>,
                          sizes: nat -> Option<nat>, request: nat, ghost k: nat)
    returns (names: seq<string>, moreFollows: bool)
    requires Listable(files) && k <= |files| && CursorAfter(files, continueAfter, k)
    requires lastName.Length == NAME_BUFFER && CursorAfter(files, CString(lastName[..]), k)
    requires AllServed(sizes, 0, request) && |files| - k == Left(sizes, |files|, request)
    modifies lastName
    ensures |names| == Brought(sizes, |files| - k, request)
    ensures files[..k] + names == files[..k + |names|]
    ensures moreFollows <==> Served(sizes, 0, request) && k + |names| < |files|
    ensures CursorAfter(files, CString(lastName[..]), k + |names|)
    ensures Served(sizes, 0, request) ==>
              AllServed(sizes, 0, request + 1) && |files| - k - |names| == Left(sizes, |files|, request + 1)
  {
    if Served(sizes, 0, request) {
      LeftNext(sizes, 0, |files|, request);
    }
    var page := RequestPage(files, continueAfter, sizes, request, k);
    if page.None? {
      return [], false;
    }
    names, moreFollows := page.value.items, page.value.moreFollows;
    forall i | 0 <= i < |names| ensures Fits(names[i]) {
      assert Listed(files, k + i);
    }
    HandleEntries(lastName, names);
  }

  predicate Empty(sizes: nat -> Option<nat>, request: nat) {
    sizes(request) == Some(0)
  }

  ghost predicate ComesToNames(sizes: nat -> Option<nat>, k: nat) {
    exists m: nat :: k <= m && !Empty(sizes, m)
  }

  /** After any request, some request is answered with names or fails. */
  ghost predicate Lively(sizes: nat -> Option<nat>) {
    forall k: nat :: ComesToNames(sizes, k)
  }

  /** How many empty answers come before that, counted up to a request that is not answered so. */
  ghost function WaitUntil(sizes: nat -> Option<nat>, k: nat, bound: nat): nat
    requires k <= bound && !Empty(sizes, bound)
    decreases bound - k
  {
    if !Empty(sizes, k) then 0 else 1 + WaitUntil(sizes, k + 1, bound)
  }

  lemma {:induction false} WaitIsUnique(sizes: nat -> Option<nat>, k: nat, b: nat, c: nat)
    requires k <= b && k <= c && !Empty(sizes, b) && !Empty(sizes, c)
    ensures WaitUntil(sizes, k, b) == WaitUntil(sizes, k, c)
    decreases b - k
  {
    if Empty(sizes, k) {
      WaitIsUnique(sizes, k + 1, b, c);
    }
  }

  ghost function Wait(sizes: nat -> Option<nat>, k: nat): nat
    requires Lively(sizes)
  {
    assert ComesToNames(sizes, k);
    var bound: nat :| k <= bound && !Empty(sizes, bound);
    WaitUntil(sizes, k, bound)
  }

  lemma WaitFalls(sizes: nat -> Option<nat>, k: nat)
    requires Lively(sizes) && Empty(sizes, k)
    ensures Wait(sizes, k) == 1 + Wait(sizes, k + 1)
  {
    assert ComesToNames(sizes, k) && ComesToNames(sizes, k + 1);
    var b: nat :| k <= b && !Empty(sizes, b) && Wait(sizes, k) == WaitUntil(sizes, k, b);
    var c: nat :| k + 1 <= c && !Empty(sizes, c) && Wait(sizes, k + 1) == WaitUntil(sizes, k + 1, c);
    WaitIsUnique(sizes, k, b, c);
  }

  /**
   The listing loop with its shared buffer: the handler copies each name into `lastName`, which is
   also where the next request takes its cursor from. Files are printed in order and once; all of
   them exactly if no request fails while names are left, else those before the failure. An empty
   page that says more follows makes the loop ask again with the same cursor, so it ends only with a
   server that does not answer that way for ever.
   */
  method ListFiles(files: seq<string>, sizes: nat -> Option<nat>) returns (printed: seq<string>)
    requires Listable(files) && Lively(sizes)
    ensures printed == files <==> !SomeStarves(sizes, 0, |files|)
    ensures SomeStarves(sizes, 0, |files|) ==>
              printed == files[..|files| - Left(sizes, |files|, StarvedAt(sizes, 0, |files|))]
  {
    printed := [];
    var lastName := NewNameBuffer();
    var continueAfter: string := [];
    var requests, more := 0, true;
    ghost var k, served := 0, 0;
    while more
      invariant k <= |files| && printed == files[..k]
      invariant CursorAfter(files, CString(lastName[..]), k)
      invariant more ==> served == requests && CursorAfter(files, continueAfter, k)
      invariant AllServed(sizes, 0, served) && |files| - k == Left(sizes, |files|, served)
      invariant !more ==> k == |files| || !Served(sizes, 0, served)
      decreases |files| - k, more, Wait(sizes, requests)
    {
      var names, moreFollows := GetFileDirectory(files, continueAfter, lastName, sizes, requests, k);
      if Served(sizes, 0, requests) {
        served := served + 1;
      }
      printed := printed + names;
      more := moreFollows;
      k := k + |names|;
      if more {
        continueAfter := CString(lastName[..]);
      }
      if Empty(sizes, requests) {
        WaitFalls(sizes, requests);
      }
      requests := requests + 1;
    }
    Ends(sizes, 0, |files|, served);
  }

  // ---------- What is taken from the server's data ----------

  lemma UniqueCursorsExactly(journal: seq<Entry>)
    ensures UniqueCursors(journal) <==>
            forall i, j :: 0 <= i < j < |journal| ==>
              journal[i].id != journal[j].id || journal[i].time != journal[j].time
  {
    if UniqueCursors(journal) {
      forall i, j | 0 <= i < j < |journal|
        ensures journal[i].id != journal[j].id || journal[i].time != journal[j].time
      {
        assert IsAt(journal, i, journal[i].id, journal[i].time);
        assert IsAt(journal, j, journal[j].id, journal[j].time) && i != j;
      }
    }
  }

  lemma ListableExactly(files: seq<string>)
    ensures Listable(files) <==>
            Distinct(files) && forall n :: n in files ==> 0 < |n| < 300 && '\0' !in n
  {
    if Listable(files) {
      forall i, j | 0 <= i < j < |files| ensures files[i] != files[j] {
        assert Listed(files, j) && files[..j][i] in files[..j];
      }
      forall n | n in files ensures Fits(n) {
        var i :| 0 <= i < |files| && files[i] == n;
        assert Listed(files, i);
      }
    }
  }
}
