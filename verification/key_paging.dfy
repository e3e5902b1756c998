/**
 Filtered, paged listing of access keys: a scan that follows short pages until
 one more match than asked for proves that another page exists.
 */
module KeyPaging {
  import opened Common
  import opened KeyOrder
  import opened KvStore

  const ACCESS_KEY_PAGE_SIZE_DEFAULT := 100
  const SCAN_PAGE_SIZE := 1000

  datatype AccessKey = AccessKey(id: string, user: string)

  /** A stored row; None is a row whose value does not decode. */
  type Row = Item<Option<AccessKey>>

  /** Rows are stored under the id of the key they hold. */
  ghost predicate WellKeyed(rows: seq<Row>) {
    forall i :: 0 <= i < |rows| && rows[i].value.Some? ==> rows[i].value.value.id == rows[i].key
  }

  predicate Matches(row: Row, userId: string) {
    row.value.Some? && (userId == "" || row.value.value.user == userId)
  }

  function Selected(row: Row, userId: string): (keys: seq<AccessKey>)
    ensures |keys| <= 1
  {
    if Matches(row, userId) then [row.value.value] else []
  }

  /** All keys of a user, in row order. */
  function Matching(rows: seq<Row>, userId: string): (keys: seq<AccessKey>) {
    if rows == [] then [] else Selected(rows[0], userId) + Matching(rows[1..], userId)
  }

  lemma {:induction false} MatchingSplit(a: seq<Row>, b: seq<Row>, userId: string)
    ensures Matching(a + b, userId) == Matching(a, userId) + Matching(b, userId)
  {
    if a == [] {
      assert a + b == b;
    } else {
      var head, tail := Selected(a[0], userId), a[1..];
      MatchingSplit(tail, b, userId);
      calc {
        Matching(a + b, userId);
        { assert (a + b)[0] == a[0] && (a + b)[1..] == tail + b; }
        head + Matching(tail + b, userId);
        head + (Matching(tail, userId) + Matching(b, userId));
        (head + Matching(tail, userId)) + Matching(b, userId);
      }
    }
  }

  lemma MatchingNext(rows: seq<Row>, k: nat, userId: string)
    requires k < |rows|
    ensures Matching(rows[..k + 1], userId) == Matching(rows[..k], userId) + Selected(rows[k], userId)
  {
    assert rows[..k + 1] == rows[..k] + [rows[k]];
    MatchingSplit(rows[..k], [rows[k]], userId);
  }

  lemma MatchingRest(rows: seq<Row>, k: nat, userId: string)
    requires k <= |rows|
    ensures Matching(rows[..k], userId) <= Matching(rows, userId)
  {
    assert rows == rows[..k] + rows[k..];
    MatchingSplit(rows[..k], rows[k..], userId);
  }

  /** The listing loses no key of the user and invents none. */
  lemma {:induction false} MatchingMembers(rows: seq<Row>, userId: string, key: AccessKey)
    ensures key in Matching(rows, userId) <==>
            exists i :: 0 <= i < |rows| && Matches(rows[i], userId) && rows[i].value.value == key
  {
    if rows != [] {
      MatchingMembers(rows[1..], userId, key);
      if key in Matching(rows[1..], userId) {
        var i :| 0 <= i < |rows[1..]| && Matches(rows[1..][i], userId) && rows[1..][i].value.value == key;
        assert rows[i + 1] == rows[1..][i];
      }
      forall i | 0 < i < |rows| && Matches(rows[i], userId) && rows[i].value.value == key
        ensures key in Matching(rows[1..], userId)
      {
        assert rows[1..][i - 1] == rows[i];
      }
    }
  }

  /** The ids of a listing are strictly increasing, so no key is listed twice. */
  lemma {:induction false} MatchingIncreasing(rows: seq<Row>, userId: string)
    requires Sorted(rows) && WellKeyed(rows)
    ensures forall i, j :: 0 <= i < j < |Matching(rows, userId)| ==>
              Less(Matching(rows, userId)[i].id, Matching(rows, userId)[j].id)
  {
    if rows != [] {
      var tail := rows[1..];
      MatchingIncreasing(tail, userId);
      forall key | key in Matching(tail, userId)
        ensures Less(rows[0].key, key.id)
      {
        MatchingMembers(tail, userId, key);
        var i :| 0 <= i < |tail| && Matches(tail[i], userId) && tail[i].value.value == key;
        assert tail[i] == rows[i + 1];
      }
    }
  }

  function PageSize(asked: int): (n: nat)
    ensures n > 0
  {
    if asked <= 0 then ACCESS_KEY_PAGE_SIZE_DEFAULT else asked
  }

  /** One page of a complete listing and the token to ask for the next one. */
  function Page(rows: seq<Row>, userId: string, token: string, asked: int): (p: (seq<AccessKey>, string)) {
    var all := Matching(After(rows, token), userId);
    var n := PageSize(asked);
    if |all| <= n then (all, "") else (all[..n], all[n - 1].id)
  }

  /** No more than asked for, or 100; there is another page exactly when more matches are left, and it goes on there. */
  lemma PageSays(rows: seq<Row>, userId: string, token: string, asked: int)
    requires Sorted(rows) && WellKeyed(rows)
    ensures var (keys, next) := Page(rows, userId, token, asked);
            var all, size := Matching(After(rows, token), userId), if asked <= 0 then 100 else asked;
            && keys <= all && |keys| == (if |all| < size then |all| else size)
            && (next == "" <==> |all| <= size) && (next != "" ==> next == keys[size - 1].id)
  {
    var all, n := Matching(After(rows, token), userId), PageSize(asked);
    hide Matching, After, WellKeyed, Sorted;
    if |all| > n {
      TokenContinues(rows, userId, token, n);
    }
  }

  /** Collects the matches of one read; full tells that one more than wanted was seen. */
  method ScanPage(page: seq<Row>, userId: string, size: nat, before: seq<AccessKey>)
    returns (keys: seq<AccessKey>, full: bool)
    requires |before| <= size
    ensures full <==> |before + Matching(page, userId)| > size
    ensures keys == if full then (before + Matching(page, userId))[..size] else before + Matching(page, userId)
  {
    keys := before;
    for i := 0 to |page|
      invariant keys == before + Matching(page[..i], userId) && |keys| <= size
    {
      MatchingNext(page, i, userId);
      if Matches(page[i], userId) {
        if |keys| >= size {
          MatchingRest(page, i + 1, userId);
          return keys, true;
        }
        keys := keys + [page[i].value.value];
      }
    }
    assert page[..|page|] == page;
    full := false;
  }

  lemma MatchingSlice(range: seq<Row>, a: nat, b: nat, userId: string)
    requires a <= b <= |range|
    ensures Matching(range[..b], userId) == Matching(range[..a], userId) + Matching(range[a..b], userId)
    ensures Matching(range, userId) == Matching(range[..b], userId) + Matching(range[b..], userId)
  {
    hide Matching;
    assert range[..b] == range[..a] + range[a..b];
    MatchingSplit(range[..a], range[a..b], userId);
    assert range == range[..b] + range[b..];
    MatchingSplit(range[..b], range[b..], userId);
  }

  /** The scan: whatever the page lengths of the range read, it returns exactly that page. */
  method AccessKeysOf(rows: seq<Row>, userId: string, token: string, asked: int)
    returns (keys: seq<AccessKey>, next: string)
    requires Sorted(rows)
    ensures (keys, next) == Page(rows, userId, token, asked)
  {
    var size := PageSize(asked);
    ghost var range, read := After(rows, token), 0;
    var lower := token;
    keys := [];
    assert Matching(range[..0], userId) == [];
    hide After, Matching, Less, Sorted;
    while true
      invariant read <= |range| && After(rows, lower) == range[read..]
      invariant keys == Matching(range[..read], userId) && |keys| <= size
      decreases |range| - read
    {
      var page := ReadRange(rows, lower, SCAN_PAGE_SIZE);
      if page == [] {
        assert range[..read] == range;
        break;
      }
      ghost var end := read + |page|;
      assert page == range[read..end];
      MatchingSlice(range, read, end, userId);
      var full;
      keys, full := ScanPage(page, userId, size, keys);
      if full {
        assert keys == Matching(range[..end], userId)[..size] == Matching(range, userId)[..size];
        return keys, keys[|keys| - 1].id;
      }
      AfterWithin(rows, token, end);
      assert page[|page| - 1] == range[end - 1];
      read := end;
      lower := page[|page| - 1].key;
    }
    next := "";
  }

  /** After the token of a full page come exactly the matches the page left out. */
  lemma {:induction false} TokenSplits(range: seq<Row>, userId: string, n: nat) returns (read: nat)
    requires Sorted(range) && WellKeyed(range) && 0 < n <= |Matching(range, userId)|
    ensures 0 < read <= |range| && range[read - 1].key == Matching(range, userId)[n - 1].id
    ensures Matching(range[read..], userId) == Matching(range, userId)[n..]
  {
    assert Sorted(range[1..]) && WellKeyed(range[1..]);
    hide Less, Sorted;
    assert Matching(range, userId) == Selected(range[0], userId) + Matching(range[1..], userId);
    if Matches(range[0], userId) && n == 1 {
      read := 1;
    } else {
      var m := if Matches(range[0], userId) then n - 1 else n;
      hide Matching, WellKeyed;
      read := TokenSplits(range[1..], userId, m);
      assert range[1..][read - 1] == range[read];
      assert range[1..][read..] == range[read + 1..];
      read := read + 1;
    }
  }

  /** What a client collects that follows page tokens until it gets an empty one. */
  ghost function Follow(rows: seq<Row>, userId: string, token: string, asked: int, fuel: nat): seq<AccessKey>
    decreases fuel
  {
    var (keys, next) := Page(rows, userId, token, asked);
    if next == "" || fuel == 0 then keys else keys + Follow(rows, userId, next, asked, fuel - 1)
  }

  lemma RangeWellKeyed(rows: seq<Row>, token: string)
    requires Sorted(rows) && WellKeyed(rows)
    ensures Sorted(After(rows, token)) && WellKeyed(After(rows, token))
  {
    hide Less, After;
    AfterIsSuffix(rows, token);
    var range := After(rows, token);
    assert forall i :: 0 <= i < |range| ==> range[i] == rows[|rows| - |range| + i];
  }

  /** The token of a full page continues behind the page, and is not the empty token. */
  lemma TokenContinues(rows: seq<Row>, userId: string, token: string, n: nat)
    requires Sorted(rows) && WellKeyed(rows) && 0 < n <= |Matching(After(rows, token), userId)|
    ensures var next := Matching(After(rows, token), userId)[n - 1].id;
            && next != ""
            && |After(rows, next)| < |After(rows, token)|
            && Matching(After(rows, next), userId) == Matching(After(rows, token), userId)[n..]
  {
    hide After, Matching, WellKeyed;
    var range := After(rows, token);
    RangeWellKeyed(rows, token);
    var read := TokenSplits(range, userId, n);
    AfterWithin(rows, token, read);
    AfterMembers(rows, token, range[read - 1]);
  }

  /**
   Following the tokens yields every matching key behind the first token once, in
   key order, and needs no more requests than there are rows.
   */
  lemma {:induction false} FollowIsComplete(rows: seq<Row>, userId: string, token: string, asked: int, fuel: nat)
    requires Sorted(rows) && WellKeyed(rows) && |After(rows, token)| <= fuel
    ensures Follow(rows, userId, token, asked, fuel) == Matching(After(rows, token), userId)
    decreases fuel
  {
    hide After, Matching, WellKeyed, Sorted;
    var all := Matching(After(rows, token), userId);
    var n := PageSize(asked);
    if |all| > n {
      TokenContinues(rows, userId, token, n);
      FollowIsComplete(rows, userId, all[n - 1].id, asked, fuel - 1);
      assert all == all[..n] + all[n..];
    }
  }

  /** From the empty token: each matching key of the store, exactly once. */
  lemma ListingIsExact(rows: seq<Row>, userId: string, asked: int)
    requires Sorted(rows) && WellKeyed(rows) && (forall i :: 0 <= i < |rows| ==> rows[i].key != "")
    ensures var listed := Follow(rows, userId, "", asked, |rows|);
            && (forall i, j :: 0 <= i < j < |listed| ==> Less(listed[i].id, listed[j].id))
            && (forall key :: key in listed <==>
                  exists i :: 0 <= i < |rows| && rows[i].value == Some(key) && (userId == "" || key.user == userId))
  {
    assert After(rows, "") == rows;
    FollowIsComplete(rows, userId, "", asked, |rows|);
    MatchingIncreasing(rows, userId);
    forall key {
      MatchingMembers(rows, userId, key);
    }
  }
}
