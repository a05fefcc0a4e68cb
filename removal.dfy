/**
 * `Store.removeBook` deletes books by title with `splice` inside a `forEach`.
 * `forEach` fixes its bound to the length the array had before the first call,
 * skips every index that is no longer below the current length, and moves on to
 * the next index after a splice. So the book that slides into a removed index is
 * never looked at: a matching book is removed exactly when the book before it in
 * the original list was kept.
 */
module Removal {
  import opened Books

  /**
   * What the loop leaves, read front to back: a book with another title is kept;
   * a book with the title is removed and the book that slides into its index is
   * passed over, so it is kept whatever its title.
   */
  function Survivors(books: seq<Book>, title: string): (r: seq<Book>)
    ensures |r| <= |books|
    decreases |books|
  {
    if |books| == 0 then []
    else if books[0].title != title then [books[0]] + Survivors(books[1..], title)
    else if |books| == 1 then []
    else [books[1]] + Survivors(books[2..], title)
  }

  /** Proof hint: one unfolding of `Survivors` when the first book has another title. */
  lemma SurvivorsWhenKept(books: seq<Book>, title: string)
    requires |books| > 0 && books[0].title != title
    ensures Survivors(books, title) == [books[0]] + Survivors(books[1..], title)
  {
  }

  /** Proof hint: one unfolding of `Survivors` when the first book matches and has a follower. */
  lemma SurvivorsWhenRemoved(books: seq<Book>, title: string)
    requires |books| > 1 && books[0].title == title
    ensures Survivors(books, title) == [books[1]] + Survivors(books[2..], title)
  {
  }

  /**
   * Reference definition of what the loop deletes, by original position: the book
   * at position `i` is removed exactly when it has the title and the book before it
   * was not removed.
   */
  function Removed(books: seq<Book>, title: string, i: nat): bool
    requires i < |books|
    decreases i
  {
    books[i].title == title && (i == 0 || !Removed(books, title, i - 1))
  }

  /** The first `n` books of the list, less those `Removed`, in their order. */
  function KeptAmong(books: seq<Book>, title: string, n: nat): seq<Book>
    requires n <= |books|
  {
    if n == 0 then []
    else KeptAmong(books, title, n - 1) + (if Removed(books, title, n - 1) then [] else [books[n - 1]])
  }

  /** How many of the first `n` books are `Removed`. */
  function RemovedCount(books: seq<Book>, title: string, n: nat): nat
    requires n <= |books|
  {
    if n == 0 then 0
    else RemovedCount(books, title, n - 1) + (if Removed(books, title, n - 1) then 1 else 0)
  }

  /** With a first book of another title, positions shift by one and nothing else changes. */
  lemma {:induction false} RemovedAfterKept(books: seq<Book>, title: string, i: nat)
    requires i + 1 < |books| && books[0].title != title
    ensures Removed(books, title, i + 1) == Removed(books[1..], title, i)
  {
    if i > 0 {
      RemovedAfterKept(books, title, i - 1);
    }
  }

  /** With a first book that matches, it goes, the second stays, and positions shift by two. */
  lemma {:induction false} RemovedAfterRemoved(books: seq<Book>, title: string, i: nat)
    requires i + 2 < |books| && books[0].title == title
    ensures Removed(books, title, i + 2) == Removed(books[2..], title, i)
  {
    assert Removed(books, title, 0) && !Removed(books, title, 1);
    if i > 0 {
      RemovedAfterRemoved(books, title, i - 1);
    }
  }

  lemma {:induction false} KeptAmongAfterKept(books: seq<Book>, title: string, n: nat)
    requires n + 1 <= |books| && books[0].title != title
    ensures KeptAmong(books, title, n + 1) == [books[0]] + KeptAmong(books[1..], title, n)
  {
    if n > 0 {
      KeptAmongAfterKept(books, title, n - 1);
      RemovedAfterKept(books, title, n - 1);
      var last := if Removed(books, title, n) then [] else [books[n]];
      assert KeptAmong(books, title, n + 1) == KeptAmong(books, title, n) + last;
      assert KeptAmong(books[1..], title, n) == KeptAmong(books[1..], title, n - 1) + last;
    }
  }

  lemma {:induction false} KeptAmongAfterRemoved(books: seq<Book>, title: string, n: nat)
    requires n + 2 <= |books| && books[0].title == title
    ensures KeptAmong(books, title, n + 2) == [books[1]] + KeptAmong(books[2..], title, n)
  {
    assert Removed(books, title, 0) && !Removed(books, title, 1);
    if n == 0 {
      assert KeptAmong(books, title, 1) == [];
    } else {
      KeptAmongAfterRemoved(books, title, n - 1);
      RemovedAfterRemoved(books, title, n - 1);
      var last := if Removed(books, title, n + 1) then [] else [books[n + 1]];
      assert KeptAmong(books, title, n + 2) == KeptAmong(books, title, n + 1) + last;
      assert KeptAmong(books[2..], title, n) == KeptAmong(books[2..], title, n - 1) + last;
    }
  }

  /**
   * The loop's outcome, read front to back, is the original list less exactly the
   * books `Removed` by position: a match whose predecessor was kept.
   */
  lemma {:induction false} SurvivorsByPosition(books: seq<Book>, title: string)
    ensures Survivors(books, title) == KeptAmong(books, title, |books|)
    decreases |books|
  {
    if |books| == 0 {
    } else if books[0].title != title {
      SurvivorsByPosition(books[1..], title);
      KeptAmongAfterKept(books, title, |books| - 1);
      SurvivorsWhenKept(books, title);
    } else if |books| == 1 {
      assert Removed(books, title, 0);
      assert KeptAmong(books, title, 1) == KeptAmong(books, title, 0) + [];
    } else {
      SurvivorsByPosition(books[2..], title);
      KeptAmongAfterRemoved(books, title, |books| - 2);
      SurvivorsWhenRemoved(books, title);
    }
  }

  lemma {:induction false} KeptAmongLength(books: seq<Book>, title: string, n: nat)
    requires n <= |books|
    ensures |KeptAmong(books, title, n)| == n - RemovedCount(books, title, n)
  {
    if n > 0 {
      KeptAmongLength(books, title, n - 1);
    }
  }

  /** The list written back is the original length less the number of books removed. */
  lemma SurvivorsLength(books: seq<Book>, title: string)
    ensures |Survivors(books, title)| == |books| - RemovedCount(books, title, |books|)
  {
    SurvivorsByPosition(books, title);
    KeptAmongLength(books, title, |books|);
  }

  /** No book of another title is removed, and those books keep their relative order. */
  lemma {:induction false} SurvivorsKeepOtherTitles(books: seq<Book>, title: string)
    ensures OtherTitles(Survivors(books, title), title) == OtherTitles(books, title)
    decreases |books|
  {
    if |books| == 0 {
    } else if books[0].title != title {
      SurvivorsKeepOtherTitles(books[1..], title);
      var r := Survivors(books, title);
      assert r[0] == books[0] && r[1..] == Survivors(books[1..], title);
    } else if |books| == 1 {
    } else {
      SurvivorsKeepOtherTitles(books[2..], title);
      var r := Survivors(books, title);
      assert r[0] == books[1] && r[1..] == Survivors(books[2..], title);
      assert books[1..][0] == books[1] && books[1..][1..] == books[2..];
    }
  }

  /** Every remaining book, counted with multiplicity, was in the original list. */
  lemma {:induction false} SurvivorsFromOriginal(books: seq<Book>, title: string)
    ensures multiset(Survivors(books, title)) <= multiset(books)
    decreases |books|
  {
    if |books| == 0 {
    } else if books[0].title != title {
      SurvivorsFromOriginal(books[1..], title);
      SurvivorsWhenKept(books, title);
      assert books == [books[0]] + books[1..];
    } else if |books| > 1 {
      SurvivorsFromOriginal(books[2..], title);
      SurvivorsWhenRemoved(books, title);
      assert books == [books[0], books[1]] + books[2..];
    }
  }

  /** The books that remain are the original books with some deleted, in their original order. */
  lemma {:induction false} SurvivorsInOrder(books: seq<Book>, title: string)
    ensures Subsequence(Survivors(books, title), books)
    decreases |books|
  {
    var r := Survivors(books, title);
    if |books| == 0 {
    } else if books[0].title != title {
      SurvivorsInOrder(books[1..], title);
      assert r[0] == books[0] && r[1..] == Survivors(books[1..], title);
    } else if |books| == 1 {
    } else {
      SurvivorsInOrder(books[2..], title);
      var tail := books[1..];
      assert r[0] == tail[0] && r[1..] == Survivors(tail[1..], title) by {
        assert tail[0] == books[1] && tail[1..] == books[2..];
      }
      assert Subsequence(r, tail);
    }
  }

  /** The list comes back unchanged if and only if no book has exactly the title. */
  lemma {:induction false} SurvivorsUnchangedIff(books: seq<Book>, title: string)
    ensures Survivors(books, title) == books <==> !HasTitle(books, title)
    decreases |books|
  {
    if |books| == 0 {
    } else if books[0].title != title {
      SurvivorsUnchangedIff(books[1..], title);
      if HasTitle(books, title) {
        var i :| 0 <= i < |books| && books[i].title == title;
        assert books[1..][i - 1].title == title;
      }
      if HasTitle(books[1..], title) {
        var i :| 0 <= i < |books| - 1 && books[1..][i].title == title;
        assert books[i + 1].title == title;
      }
      assert books == [books[0]] + books[1..];
    } else {
      assert |Survivors(books, title)| < |books| by {
        if |books| > 1 {
          assert |Survivors(books[2..], title)| <= |books| - 2;
        }
      }
    }
  }

  /** Books before the first match pass through the loop untouched. */
  lemma {:induction false} SurvivorsKeepPrefix(books: seq<Book>, title: string, i: nat)
    requires i <= |books|
    requires !HasTitle(books[..i], title)
    ensures Survivors(books, title) == books[..i] + Survivors(books[i..], title)
    decreases i
  {
    if i == 0 {
      assert books[..0] == [] && books[0..] == books;
    } else {
      var rest := books[1..];
      assert books[..i][0] == books[0];
      SurvivorsWhenKept(books, title);
      assert rest[..i - 1] == books[..i][1..];
      assert !HasTitle(rest[..i - 1], title);
      SurvivorsKeepPrefix(rest, title, i - 1);
      assert rest[i - 1..] == books[i..];
      assert [books[0]] + rest[..i - 1] == books[..i];
    }
  }

  /**
   * When at least one book has the title, the first such book is removed, every book
   * before it stays, and the book right after it stays whatever its title.
   */
  lemma FirstMatchRemoved(books: seq<Book>, title: string, i: nat)
    requires i < |books| && books[i].title == title
    requires forall j :: 0 <= j < i ==> books[j].title != title
    ensures Removed(books, title, i)
    ensures Survivors(books, title) ==
            books[..i] + (if i + 1 < |books| then [books[i + 1]] + Survivors(books[i + 2..], title) else [])
  {
    assert i > 0 ==> !Removed(books, title, i - 1);
    assert !HasTitle(books[..i], title);
    SurvivorsKeepPrefix(books, title, i);
    var tail := books[i..];
    assert tail[0] == books[i];
    if i + 1 < |books| {
      assert tail[1] == books[i + 1] && tail[2..] == books[i + 2..];
    }
  }

  /**
   * In a run of consecutive books with the title, the first of the run, then the
   * third, the fifth and so on are removed; the second, fourth, ... are kept.
   */
  lemma {:induction false} RunAlternates(books: seq<Book>, title: string, start: nat, j: nat)
    requires start + j < |books|
    requires forall m :: start <= m <= start + j ==> books[m].title == title
    requires start == 0 || books[start - 1].title != title
    ensures Removed(books, title, start + j) <==> j % 2 == 0
    decreases j
  {
    if j > 0 {
      RunAlternates(books, title, start, j - 1);
    } else if start > 0 {
      assert !Removed(books, title, start - 1);
    }
  }

  /**
   * When no two neighbouring books both have the title, every book with the title is
   * removed, and a second call with the same title changes nothing.
   */
  lemma {:induction false} NoAdjacentRemovesAll(books: seq<Book>, title: string)
    requires forall i :: 0 < i < |books| ==> books[i - 1].title != title || books[i].title != title
    ensures Survivors(books, title) == OtherTitles(books, title)
    ensures Survivors(Survivors(books, title), title) == Survivors(books, title)
    decreases |books|
  {
    if |books| == 0 {
    } else if books[0].title != title {
      NoAdjacentRemovesAll(books[1..], title);
    } else if |books| == 1 {
    } else {
      NoAdjacentRemovesAll(books[2..], title);
      assert books[1..][0] == books[1] && books[1..][1..] == books[2..];
    }
    SurvivorsUnchangedIff(OtherTitles(books, title), title);
  }

  /** A book that matches and is not `Removed` is among the kept books. */
  lemma {:induction false} KeptAmongHasTitle(books: seq<Book>, title: string, j: nat, n: nat)
    requires j < n <= |books|
    requires books[j].title == title && !Removed(books, title, j)
    ensures HasTitle(KeptAmong(books, title, n), title)
  {
    var prefix := KeptAmong(books, title, n - 1);
    if j == n - 1 {
      var kept := prefix + [books[j]];
      assert kept[|prefix|].title == title;
    } else {
      KeptAmongHasTitle(books, title, j, n - 1);
      var k :| 0 <= k < |prefix| && prefix[k].title == title;
      assert KeptAmong(books, title, n)[k] == prefix[k];
    }
  }

  /**
   * Two neighbouring books with the title always leave one with the title behind,
   * so a second removal with the same title removes more.
   */
  lemma AdjacentLeavesMatch(books: seq<Book>, title: string, i: nat)
    requires 0 < i < |books| && books[i - 1].title == title && books[i].title == title
    ensures HasTitle(Survivors(books, title), title)
    ensures Survivors(Survivors(books, title), title) != Survivors(books, title)
  {
    var j := if Removed(books, title, i - 1) then i else i - 1;
    assert !Removed(books, title, j);
    KeptAmongHasTitle(books, title, j, |books|);
    SurvivorsByPosition(books, title);
    SurvivorsUnchangedIff(Survivors(books, title), title);
  }

  /**
   * A second removal with the same title changes nothing exactly when no two
   * neighbouring books of the original list both have the title.
   */
  lemma {:induction false} SecondRemovalNoOpIff(books: seq<Book>, title: string)
    ensures Survivors(Survivors(books, title), title) == Survivors(books, title) <==>
            forall i :: 0 < i < |books| ==> books[i - 1].title != title || books[i].title != title
  {
    if forall i :: 0 < i < |books| ==> books[i - 1].title != title || books[i].title != title {
      NoAdjacentRemovesAll(books, title);
    } else {
      var i :| 0 < i < |books| && books[i - 1].title == title && books[i].title == title;
      AdjacentLeavesMatch(books, title, i);
    }
  }

  /**
   * A second removal with the same title can remove more: of two books titled
   * "Dune" the first call removes only the first, the second call removes the other.
   */
  lemma RemoveIsNotIdempotent()
    ensures var dune := [Book("Dune", "Herbert"), Book("Dune", "Frank")];
            Survivors(dune, "Dune") == [Book("Dune", "Frank")] &&
            Survivors(Survivors(dune, "Dune"), "Dune") == []
  {
  }

  /**
   * The outcome still owed by the loop when it stands at index `k` of `rest`: the
   * books before `k` are settled, the survivors of the ones from `k` on are not.
   */
  ghost function Pending(rest: seq<Book>, title: string, k: nat): seq<Book>
  {
    if k <= |rest| then rest[..k] + Survivors(rest[k..], title) else rest
  }

  /** Splicing out a match at `k` and advancing to `k + 1` owes the same outcome. */
  lemma SpliceStep(rest: seq<Book>, title: string, k: nat)
    requires k < |rest| && rest[k].title == title
    ensures Pending(rest[..k] + rest[k + 1..], title, k + 1) == Pending(rest, title, k)
  {
    var tail := rest[k..];
    var next := rest[..k] + rest[k + 1..];
    assert tail[0] == rest[k];
    if k + 1 < |rest| {
      assert tail[1] == rest[k + 1] && tail[2..] == rest[k + 2..];
      assert next[..k + 1] == rest[..k] + [tail[1]];
      assert next[k + 1..] == tail[2..];
    } else {
      assert next == rest[..k];
    }
  }

  /**
   * The `forEach` loop of `removeBook` over its local copy of the list. The bound
   * `len` is read once, before the first call, as `forEach` does; an index at or past
   * the current length is skipped; a match is spliced out and the index still advances.
   */
  method ForEachSplice(books: seq<Book>, title: string) returns (rest: seq<Book>)
    ensures rest == Survivors(books, title)
  {
    rest := books;
    var len := |books|;
    var k := 0;
    assert books[0..] == books;
    while k < len
      invariant k <= len
      invariant |rest| <= len
      invariant Pending(rest, title, k) == Survivors(books, title)
    {
      if k < |rest| && rest[k].title == title {
        SpliceStep(rest, title, k);
        rest := rest[..k] + rest[k + 1..];
      }
      k := k + 1;
    }
    assert k >= |rest|;
    assert k == |rest| ==> rest[..k] == rest && rest[k..] == [];
  }
}
