/** mod_remember.cpp: looking a word up through links, with a limit and a check for cycles. */
module Remember {
  import opened Wrappers

  datatype Row = Row(nick: string, data: string)

  /** What the caller is told: an entry's text, or one of the four refusals. */
  datatype Desc =
    | Text(data: string)
    | NoSuchWord
    | DanglingLink(from: string, to: string)
    | RecursiveLink
    | TooManyLinks

  const MAX_REDIRECTS := 10
  const ERROR_NICK := "오류"

  /** A full match of ^link:([^ ]+)$ and its group. */
  function LinkTarget(data: string): Option<string> {
    if |data| > 5 && data[..5] == "link:" && ' ' !in data[5..] then Some(data[5..]) else None
  }

  /** Every word without a space can be linked to, but for the empty one. */
  lemma LinkNamesWord(w: string)
    requires w != "" && ' ' !in w
    ensures LinkTarget("link:" + w) == Some(w)
  {
    assert ("link:" + w)[..5] == "link:" && ("link:" + w)[5..] == w;
  }

  /** And nothing else is a link. */
  lemma OnlyThoseAreLinks(data: string)
    requires LinkTarget(data).Some?
    ensures var w := LinkTarget(data).value; data == "link:" + w && w != "" && ' ' !in w
  {
    assert data == data[..5] + data[5..];
  }

  predicate IsLink(db: map<string, Row>, word: string) {
    word in db && LinkTarget(db[word].data).Some?
  }

  /** The word reached after `n` links, if there are that many. */
  function Follow(db: map<string, Row>, word: string, n: nat): Option<string> {
    if n == 0 then Some(word)
    else
      var w := Follow(db, word, n - 1);
      if w.Some? && IsLink(db, w.value) then LinkTarget(db[w.value].data) else None
  }

  /** `n` links lead to a word that is no link itself. */
  predicate StopsAt(db: map<string, Row>, word: string, n: nat) {
    var w := Follow(db, word, n);
    w.Some? && !IsLink(db, w.value)
  }

  /** `n` links lead to an entry. */
  predicate ResolvesAt(db: map<string, Row>, word: string, n: nat) {
    StopsAt(db, word, n) && Follow(db, word, n).value in db
  }

  /** The link out of the word after `i` links leads back to an earlier word. */
  predicate ClosesCycle(db: map<string, Row>, word: string, i: nat) {
    exists k :: 0 <= k < i && Follow(db, word, i + 1).Some? && Follow(db, word, k) == Follow(db, word, i + 1)
  }

  lemma {:induction false} LinksBefore(db: map<string, Row>, word: string, n: nat, k: nat)
    requires Follow(db, word, n).Some? && k < n
    ensures Follow(db, word, k).Some? && IsLink(db, Follow(db, word, k).value)
    decreases n
  {
    if k < n - 1 {
      LinksBefore(db, word, n - 1, k);
    }
  }

  lemma StopsOnce(db: map<string, Row>, word: string, m: nat, n: nat)
    requires StopsAt(db, word, m) && StopsAt(db, word, n)
    ensures m == n
  {
    if m < n {
      LinksBefore(db, word, n, m);
    } else if n < m {
      LinksBefore(db, word, m, n);
    }
  }

  /** A chain that comes back to itself goes on for ever: it never reaches a word that is no link. */
  lemma {:induction false} CycleNeverStops(db: map<string, Row>, word: string, k: nat, i: nat, n: nat)
    requires k <= i && Follow(db, word, i + 1).Some? && Follow(db, word, k) == Follow(db, word, i + 1)
    ensures Follow(db, word, n).Some? && !StopsAt(db, word, n)
    decreases n
  {
    if n <= i {
      LinksBefore(db, word, i + 1, n);
    } else {
      var back := n - (i + 1 - k);
      SameFuture(db, word, k, i + 1, back - k);
      CycleNeverStops(db, word, k, i, back);
    }
  }

  /** From equal words on, the chain is the same. */
  lemma {:induction false} SameFuture(db: map<string, Row>, word: string, a: nat, b: nat, d: nat)
    requires Follow(db, word, a) == Follow(db, word, b)
    ensures Follow(db, word, a + d) == Follow(db, word, b + d)
    decreases d
  {
    if d > 0 {
      SameFuture(db, word, a, b, d - 1);
    }
  }

  /** What each answer says about the chain of links. */
  ghost predicate Answer(db: map<string, Row>, word: string, nick: string, desc: Desc, realword: string) {
    && (desc.Text? || nick == ERROR_NICK)
    && match desc
       case Text(data) =>
         exists n: nat :: n < MAX_REDIRECTS && ResolvesAt(db, word, n) && realword == Follow(db, word, n).value
           && Row(nick, data) == db[realword]
       case NoSuchWord =>
         word !in db && realword == word
       case DanglingLink(from, to) =>
         exists n: nat :: 0 < n < MAX_REDIRECTS && StopsAt(db, word, n) && !ResolvesAt(db, word, n)
           && Follow(db, word, n - 1) == Some(from) && Follow(db, word, n) == Some(to) && realword == to
       case RecursiveLink =>
         exists i: nat :: i < MAX_REDIRECTS && ClosesCycle(db, word, i) && Follow(db, word, i) == Some(realword)
       case TooManyLinks =>
         Follow(db, word, MAX_REDIRECTS) == Some(realword)
           && forall i: nat :: i < MAX_REDIRECTS ==> !ClosesCycle(db, word, i)
  }

  lemma CycleExcludesStop(db: map<string, Row>, word: string, i: nat, n: nat)
    requires ClosesCycle(db, word, i)
    ensures !StopsAt(db, word, n)
  {
    var k :| 0 <= k < i && Follow(db, word, i + 1).Some? && Follow(db, word, k) == Follow(db, word, i + 1);
    CycleNeverStops(db, word, k, i, n);
  }

  /**
   * The answers are exact. A text is given exactly when at most nine links lead to an entry, so the
   * cycle check refuses no chain that would resolve and no cycle resolves; each refusal is given
   * exactly when its reason holds.
   */
  lemma AnswersAreExact(db: map<string, Row>, word: string, nick: string, desc: Desc, realword: string)
    requires Answer(db, word, nick, desc, realword)
    ensures desc.Text? <==> exists n: nat :: n <= 9 && ResolvesAt(db, word, n)
    ensures desc.NoSuchWord? <==> word !in db
    ensures desc.DanglingLink? <==>
              exists n: nat :: 0 < n <= 9 && StopsAt(db, word, n) && !ResolvesAt(db, word, n)
    ensures desc.RecursiveLink? <==> exists i: nat :: i <= 9 && ClosesCycle(db, word, i)
  {
    assert word !in db ==> StopsAt(db, word, 0);
    forall m: nat, n: nat | StopsAt(db, word, m) && StopsAt(db, word, n)
      ensures m == n
    {
      StopsOnce(db, word, m, n);
    }
    forall i: nat, n: nat | ClosesCycle(db, word, i)
      ensures !StopsAt(db, word, n)
    {
      CycleExcludesStop(db, word, i, n);
    }
    if desc.TooManyLinks? {
      forall n: nat | n < MAX_REDIRECTS
        ensures !StopsAt(db, word, n)
      {
        LinksBefore(db, word, MAX_REDIRECTS, n);
      }
    }
  }

  /** The loop over the history. */
  method Contains(history: seq<string>, tmp: string) returns (found: bool)
    ensures found <==> exists k :: 0 <= k < |history| && history[k] == tmp
  {
    for it := 0 to |history|
      invariant forall k :: 0 <= k < it ==> history[k] != tmp
    {
      if history[it] == tmp {
        return true;
      }
    }
    return false;
  }

  /** getremdb_v2. */
  method GetRemDb(db: map<string, Row>, word: string) returns (result: int, nick: string, desc: Desc, realword: string)
    ensures Answer(db, word, nick, desc, realword)
    ensures result == if desc.Text? then 0 else -1
  {
    var history: seq<string> := [];
    var rword := word;
    var redirs := 0;
    while redirs < MAX_REDIRECTS
      invariant 0 <= redirs <= MAX_REDIRECTS && |history| == redirs
      invariant Follow(db, word, redirs) == Some(rword)
      invariant forall k :: 0 <= k < redirs ==> Follow(db, word, k) == Some(history[k])
      invariant forall i: nat :: i < redirs ==> !ClosesCycle(db, word, i)
    {
      if rword !in db {
        assert StopsAt(db, word, redirs);
        return -1, ERROR_NICK, if redirs != 0 then DanglingLink(history[redirs - 1], rword) else NoSuchWord, rword;
      }
      nick, desc := db[rword].nick, Text(db[rword].data);
      var target := LinkTarget(db[rword].data);
      if target.None? {
        assert ResolvesAt(db, word, redirs);
        return 0, nick, desc, rword;
      }
      var tmp := target.value;
      assert Follow(db, word, redirs + 1) == Some(tmp);
      var seen := Contains(history, tmp);
      if seen {
        assert ClosesCycle(db, word, redirs);
        return -1, ERROR_NICK, RecursiveLink, rword;
      }
      history := history + [rword];
      rword := tmp;
      redirs := redirs + 1;
    }
    return -1, ERROR_NICK, TooManyLinks, rword;
  }
}
