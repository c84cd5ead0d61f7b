/** The day-term news digest: de-duplication of feed entries by link, the pattern
    for a day of the month ("3일"), the title-or-body filter with newest-first order,
    and the split of the digest into messages of at most 4096 characters. */
module NewsCrawl {
  import opened Text

  /** One feed entry. `published` is its publication instant on a linear time scale. */
  datatype Item = Item(title: string, link: string, published: int)

  // ---------------------------------------------------------------------------
  // dedupe

  function Links(items: seq<Item>): set<string>
  {
    set i | 0 <= i < |items| :: items[i].link
  }

  /** The entries whose link no earlier entry has, in input order. */
  function Dedup(items: seq<Item>): seq<Item>
  {
    if items == [] then []
    else
      var init := items[..|items| - 1];
      var last := items[|items| - 1];
      if last.link in Links(init) then Dedup(init) else Dedup(init) + [last]
  }

  predicate DistinctLinks(items: seq<Item>)
  {
    forall i, j :: 0 <= i < j < |items| ==> items[i].link != items[j].link
  }

  /** Entry `i` is the first one in `items` with its link. */
  predicate IsFirstOccurrence(items: seq<Item>, i: int)
  {
    0 <= i < |items| && items[i].link !in Links(items[..i])
  }

  /** dedupe: one pass keeping a set of the links seen so far. */
  method Dedupe(items: seq<Item>) returns (out: seq<Item>)
    ensures out == Dedup(items)
    ensures DistinctLinks(out) && Links(out) == Links(items) && |out| <= |items|
  {
    var seen: set<string> := {};
    out := [];
    for i := 0 to |items|
      invariant seen == Links(items[..i])
      invariant out == Dedup(items[..i])
    {
      var it := items[i];
      assert items[..i + 1][..i] == items[..i];
      LinksSnoc(items[..i], it);
      assert items[..i + 1] == items[..i] + [it];
      var key := it.link;
      if key in seen {
        continue;
      }
      seen := seen + {key};
      out := out + [it];
    }
    assert items[..|items|] == items;
    DedupDistinct(items);
  }

  lemma {:induction false} LinksSnoc(s: seq<Item>, x: Item)
    ensures Links(s + [x]) == Links(s) + {x.link}
  {
    assert forall i :: 0 <= i < |s| ==> (s + [x])[i] == s[i];
    assert (s + [x])[|s|] == x;
  }

  /** The output has pairwise distinct links, every input link, and is no longer than the input. */
  lemma {:induction false} DedupDistinct(s: seq<Item>)
    ensures DistinctLinks(Dedup(s)) && Links(Dedup(s)) == Links(s) && |Dedup(s)| <= |s|
  {
    if s != [] {
      var init, last := s[..|s| - 1], s[|s| - 1];
      DedupDistinct(init);
      assert s == init + [last];
      LinksSnoc(init, last);
      if last.link !in Links(init) {
        LinksSnoc(Dedup(init), last);
        var d := Dedup(init) + [last];
        forall i, j | 0 <= i < j < |d| ensures d[i].link != d[j].link {
          if j == |d| - 1 {
            assert d[i] == Dedup(init)[i];
          } else {
            assert d[i] == Dedup(init)[i] && d[j] == Dedup(init)[j];
          }
        }
      }
    }
  }

  /** The output is exactly the first occurrences of each link, in input order:
      `idx` lists their positions in increasing order, and every first occurrence is listed. */
  lemma {:induction false} DedupFirstOccurrences(s: seq<Item>) returns (idx: seq<nat>)
    ensures |idx| == |Dedup(s)|
    ensures forall k :: 0 <= k < |idx| ==> idx[k] < |s| && Dedup(s)[k] == s[idx[k]] && IsFirstOccurrence(s, idx[k])
    ensures forall k, m :: 0 <= k < m < |idx| ==> idx[k] < idx[m]
    ensures forall i :: IsFirstOccurrence(s, i) ==> i in idx
  {
    if s == [] {
      idx := [];
    } else {
      var init := s[..|s| - 1];
      var prev := DedupFirstOccurrences(init);
      if s[|s| - 1].link in Links(init) {
        idx := prev;
        FirstOccurrencesRepeat(s, prev);
      } else {
        idx := prev + [|s| - 1];
        FirstOccurrencesNew(s, prev);
      }
    }
  }

  /** `idx` lists, in increasing order, the positions of the first occurrences in `s`,
      which are the entries of Dedup(s). */
  ghost predicate ListsFirstOccurrences(s: seq<Item>, idx: seq<nat>)
  {
    |idx| == |Dedup(s)|
    && (forall k :: 0 <= k < |idx| ==> idx[k] < |s| && Dedup(s)[k] == s[idx[k]] && IsFirstOccurrence(s, idx[k]))
    && (forall k, m :: 0 <= k < m < |idx| ==> idx[k] < idx[m])
    && (forall i :: IsFirstOccurrence(s, i) ==> i in idx)
  }

  /** Before the last entry, a first occurrence in `s` is one in the prefix. */
  lemma FirstOccurrencePrefix(s: seq<Item>, i: int)
    requires 0 <= i < |s| - 1
    ensures IsFirstOccurrence(s, i) == IsFirstOccurrence(s[..|s| - 1], i)
  {
    assert s[..i] == s[..|s| - 1][..i];
  }

  /** A repeated last link adds no first occurrence. */
  lemma FirstOccurrencesRepeat(s: seq<Item>, prev: seq<nat>)
    requires s != [] && s[|s| - 1].link in Links(s[..|s| - 1])
    requires ListsFirstOccurrences(s[..|s| - 1], prev)
    ensures ListsFirstOccurrences(s, prev)
  {
    var init := s[..|s| - 1];
    assert Dedup(s) == Dedup(init);
    forall k | 0 <= k < |prev| ensures Dedup(s)[k] == s[prev[k]] && IsFirstOccurrence(s, prev[k]) {
      FirstOccurrencePrefix(s, prev[k]);
    }
    forall i | IsFirstOccurrence(s, i) ensures i in prev {
      assert s[..|s| - 1] == init;
      FirstOccurrencePrefix(s, i);
    }
  }

  /** A new last link is a first occurrence, listed after all earlier ones. */
  lemma FirstOccurrencesNew(s: seq<Item>, prev: seq<nat>)
    requires s != [] && s[|s| - 1].link !in Links(s[..|s| - 1])
    requires ListsFirstOccurrences(s[..|s| - 1], prev)
    ensures ListsFirstOccurrences(s, prev + [|s| - 1])
  {
    var init, n := s[..|s| - 1], |s| - 1;
    var idx := prev + [n];
    assert Dedup(s) == Dedup(init) + [s[n]];
    forall k | 0 <= k < |idx| ensures idx[k] < |s| && Dedup(s)[k] == s[idx[k]] && IsFirstOccurrence(s, idx[k]) {
      if k < |prev| {
        assert idx[k] == prev[k];
        FirstOccurrencePrefix(s, prev[k]);
      } else {
        assert s[..n] == init;
      }
    }
    forall i | IsFirstOccurrence(s, i) ensures i in idx {
      if i < n {
        FirstOccurrencePrefix(s, i);
      }
    }
  }

  /** A list whose links are already distinct is left unchanged. */
  lemma {:induction false} DedupOfDistinct(s: seq<Item>)
    requires DistinctLinks(s)
    ensures Dedup(s) == s
  {
    if s != [] {
      var init, last := s[..|s| - 1], s[|s| - 1];
      assert DistinctLinks(init) by {
        forall i, j | 0 <= i < j < |init| ensures init[i].link != init[j].link {
          assert init[i] == s[i] && init[j] == s[j];
        }
      }
      DedupOfDistinct(init);
      assert last.link !in Links(init) by {
        forall i | 0 <= i < |init| ensures init[i].link != last.link {
          assert init[i] == s[i];
        }
      }
      assert s == init + [last];
    }
  }

  /** De-duplicating twice is the same as once. */
  lemma DedupIdempotent(s: seq<Item>)
    ensures Dedup(Dedup(s)) == Dedup(s)
  {
    DedupDistinct(s);
    DedupOfDistinct(Dedup(s));
  }

  // ---------------------------------------------------------------------------
  // DATE_TERM_RE and DAY_TERMS

  /** `(?:[1-9]|[12]\d|3[01])`: the digits of a day 1 to 31. */
  predicate DayNumber(t: string)
  {
    (|t| == 1 && '1' <= t[0] <= '9')
    || (|t| == 2 && (t[0] == '1' || t[0] == '2') && IsDigit(t[1]))
    || (|t| == 2 && t[0] == '3' && (t[1] == '0' || t[1] == '1'))
  }

  /** DATE_TERM_RE matches `s[k..p + 1]`: day digits `s[k..p]`, then '일' at `p`,
      with no digit right before `k` (`(?<!\d)`) nor right after `p` (`(?!\d)`). */
  predicate DayTermAt(s: string, k: int, p: int)
  {
    0 <= k < p < |s| && s[p] == '일' && DayNumber(s[k..p])
    && (k == 0 || !IsDigit(s[k - 1]))
    && (p + 1 == |s| || !IsDigit(s[p + 1]))
  }

  /** `DATE_TERM_RE.search(s)` finds a match. */
  predicate HasDayTerm(s: string)
  {
    exists k, p | 0 <= k < p < |s| :: DayTermAt(s, k, p)
  }

  /** DAY_TERMS: "1일" to "31일". */
  const DayTerms: seq<string> := seq(31, i requires 0 <= i < 31 => NatToDecimal(i + 1) + "일")

  /** Term i names day i + 1: its digits, without a leading zero, read back as i + 1,
      and it ends in '일'. */
  lemma DayTermsNames()
    ensures |DayTerms| == 31
    ensures forall i :: 0 <= i < |DayTerms| ==>
              |DayTerms[i]| >= 2 && DayTerms[i][|DayTerms[i]| - 1] == '일' && DayTerms[i][0] != '0'
              && AllDigits(DayTerms[i][..|DayTerms[i]| - 1])
              && DecimalValue(DayTerms[i][..|DayTerms[i]| - 1]) == i + 1
  {
    forall i | 0 <= i < 31
      ensures |DayTerms[i]| >= 2 && DayTerms[i][|DayTerms[i]| - 1] == '일' && DayTerms[i][0] != '0'
              && AllDigits(DayTerms[i][..|DayTerms[i]| - 1])
              && DecimalValue(DayTerms[i][..|DayTerms[i]| - 1]) == i + 1
    {
      var t := NatToDecimal(i + 1);
      var term := DayTerms[i];
      assert term == t + "일";
      assert term[..|term| - 1] == t;
      DecimalRoundTrip(i + 1);
    }
  }

  /** The day digits are the decimals 1 to 31 written without a leading zero. */
  lemma {:induction false} DayNumberMeaning(t: string)
    ensures DayNumber(t) <==> 1 <= |t| <= 2 && AllDigits(t) && t[0] != '0' && 1 <= DecimalValue(t) <= 31
  {
    if |t| == 2 && AllDigits(t) {
      var h := t[..1];
      assert h[..0] == [];
      assert DecimalValue(h) == DigitValue(t[0]);
      assert DecimalValue(t) == DigitValue(t[0]) * 10 + DigitValue(t[1]);
    } else if |t| == 1 && AllDigits(t) {
      assert DecimalValue(t) == DigitValue(t[0]);
    }
  }

  /** For a digit string followed by '일', the pattern matches exactly when the digits
      are a day 1 to 31: "3일" and "31일" match, "32일", "01일" and "131일" do not. */
  lemma {:induction false} DigitsThenDay(ds: string)
    requires AllDigits(ds)
    ensures HasDayTerm(ds + "일") <==> DayNumber(ds)
  {
    var s := ds + "일";
    assert s[..|ds|] == ds;
    if DayNumber(ds) {
      assert DayTermAt(s, 0, |ds|);
    }
    if HasDayTerm(s) {
      var k, p :| 0 <= k < p < |s| && DayTermAt(s, k, p);
      assert p == |ds|;
      assert k == 0;
    }
  }

  lemma DayTermExamples()
    ensures HasDayTerm("3일") && HasDayTerm("31일")
    ensures !HasDayTerm("32일") && !HasDayTerm("01일") && !HasDayTerm("131일")
  {
    assert AllDigits("31") && AllDigits("32") && AllDigits("01") && AllDigits("131") && AllDigits("3");
    DigitsThenDay("3");
    DigitsThenDay("31");
    DigitsThenDay("32");
    DigitsThenDay("01");
    DigitsThenDay("131");
    assert "3" + "일" == "3일" && "31" + "일" == "31일" && "32" + "일" == "32일";
    assert "01" + "일" == "01일" && "131" + "일" == "131일";
  }

  /** Every search term of DAY_TERMS is itself matched by DATE_TERM_RE. */
  lemma AllDayTermsMatch()
    ensures |DayTerms| == 31
    ensures forall i :: 0 <= i < |DayTerms| ==> HasDayTerm(DayTerms[i])
  {
    forall i | 0 <= i < 31 ensures HasDayTerm(DayTerms[i]) {
      var d := i + 1;
      var t := NatToDecimal(d);
      DecimalRoundTrip(d);
      assert |t| <= 2 by {
        if d >= 10 { assert t == NatToDecimal(d / 10) + [DigitChar(d % 10)]; }
      }
      DayNumberMeaning(t);
      DigitsThenDay(t);
    }
  }

  // ---------------------------------------------------------------------------
  // Filter and newest-first order (main, steps 3 and the sort)

  /** An entry is kept when its title matches, or else its fetched body is non-empty and matches. */
  predicate Retained(it: Item, body: string -> string)
  {
    HasDayTerm(it.title) || (body(it.link) != "" && HasDayTerm(body(it.link)))
  }

  function Kept(items: seq<Item>, body: string -> string): seq<Item>
  {
    if items == [] then []
    else
      var init := items[..|items| - 1];
      var last := items[|items| - 1];
      if Retained(last, body) then Kept(init, body) + [last] else Kept(init, body)
  }

  /** The links whose bodies are fetched: those of the entries whose title does not match. */
  function TitleMisses(items: seq<Item>): seq<string>
  {
    if items == [] then []
    else
      var init := items[..|items| - 1];
      var last := items[|items| - 1];
      if HasDayTerm(last.title) then TitleMisses(init) else TitleMisses(init) + [last.link]
  }

  /** `list.sort(key=published, reverse=True)` places `x` before every entry not newer than it. */
  function InsertNewest(x: Item, s: seq<Item>): seq<Item>
  {
    if s == [] || x.published >= s[0].published then [x] + s
    else [s[0]] + InsertNewest(x, s[1..])
  }

  /** Stable newest-first sort, as Python's `list.sort(..., reverse=True)`. */
  function NewestFirst(s: seq<Item>): seq<Item>
  {
    if s == [] then [] else InsertNewest(s[0], NewestFirst(s[1..]))
  }

  predicate NewestFirstOrder(s: seq<Item>)
  {
    forall i, j :: 0 <= i < j < |s| ==> s[i].published >= s[j].published
  }

  /** The entries published at instant `t`, in order. */
  function AtTime(s: seq<Item>, t: int): seq<Item>
  {
    if s == [] then [] else (if s[0].published == t then [s[0]] else []) + AtTime(s[1..], t)
  }

  /** The filter loop of main, then the sort: the result is the kept entries newest first,
      and a body is fetched exactly for the entries whose title does not match. */
  method SelectArticles(candidates: seq<Item>, body: string -> string)
    returns (results: seq<Item>, fetched: seq<string>)
    ensures results == NewestFirst(Kept(candidates, body))
    ensures fetched == TitleMisses(candidates)
    ensures NewestFirstOrder(results) && multiset(results) == multiset(Kept(candidates, body))
  {
    results := [];
    fetched := [];
    for i := 0 to |candidates|
      invariant results == Kept(candidates[..i], body)
      invariant fetched == TitleMisses(candidates[..i])
    {
      var it := candidates[i];
      assert candidates[..i + 1][..i] == candidates[..i];
      if HasDayTerm(it.title) {
        results := results + [it];
        continue;
      }
      var articleText := body(it.link);
      fetched := fetched + [it.link];
      if articleText != "" && HasDayTerm(articleText) {
        results := results + [it];
      }
    }
    assert candidates[..|candidates|] == candidates;
    NewestFirstSorted(results);
    results := NewestFirst(results);
  }

  lemma {:induction false} InsertNewestMultiset(x: Item, s: seq<Item>)
    ensures multiset(InsertNewest(x, s)) == multiset(s) + multiset{x}
    ensures |InsertNewest(x, s)| == |s| + 1
    ensures InsertNewest(x, s)[0] == x || (s != [] && InsertNewest(x, s)[0] == s[0])
  {
    if s != [] && x.published < s[0].published {
      InsertNewestMultiset(x, s[1..]);
      assert s == [s[0]] + s[1..];
    }
  }

  lemma SortedTail(s: seq<Item>)
    requires s != [] && NewestFirstOrder(s)
    ensures NewestFirstOrder(s[1..])
  {
    var rest := s[1..];
    forall i, j | 0 <= i < j < |rest| ensures rest[i].published >= rest[j].published {
      assert rest[i] == s[i + 1] && rest[j] == s[j + 1];
    }
  }

  lemma SortedCons(y: Item, r: seq<Item>)
    requires NewestFirstOrder(r) && (r != [] ==> y.published >= r[0].published)
    ensures NewestFirstOrder([y] + r)
  {
    var q := [y] + r;
    forall i, j | 0 <= i < j < |q| ensures q[i].published >= q[j].published {
      assert q[j] == r[j - 1];
      if i > 0 { assert q[i] == r[i - 1]; } else if j > 1 { assert r[0].published >= r[j - 1].published; }
    }
  }

  lemma {:induction false} InsertNewestOrder(x: Item, s: seq<Item>)
    requires NewestFirstOrder(s)
    ensures NewestFirstOrder(InsertNewest(x, s))
  {
    if s == [] || x.published >= s[0].published {
      SortedCons(x, s);
    } else {
      SortedTail(s);
      InsertNewestOrder(x, s[1..]);
      InsertNewestMultiset(x, s[1..]);
      if |s| > 1 {
        assert s[1..][0] == s[1];
      }
      SortedCons(s[0], InsertNewest(x, s[1..]));
    }
  }

  lemma {:induction false} InsertNewestAtTime(x: Item, s: seq<Item>, t: int)
    ensures AtTime(InsertNewest(x, s), t) == (if x.published == t then [x] else []) + AtTime(s, t)
  {
    var X := if x.published == t then [x] else [];
    if s == [] || x.published >= s[0].published {
      assert InsertNewest(x, s) == [x] + s;
      assert ([x] + s)[1..] == s;
      assert AtTime([x] + s, t) == X + AtTime(s, t);
    } else {
      var rest := s[1..];
      var ins := InsertNewest(x, rest);
      var A := if s[0].published == t then [s[0]] else [];
      InsertNewestAtTime(x, rest, t);
      assert InsertNewest(x, s) == [s[0]] + ins;
      assert ([s[0]] + ins)[1..] == ins;
      assert AtTime([s[0]] + ins, t) == A + AtTime(ins, t);
      assert AtTime(s, t) == A + AtTime(rest, t);
      assert A == [] || X == [];
      assert A + (X + AtTime(rest, t)) == X + (A + AtTime(rest, t));
    }
  }

  /** The sort returns its input newest first, as a permutation, and keeps the input
      order among entries published at the same instant (stability). */
  lemma {:induction false} NewestFirstSorted(s: seq<Item>)
    ensures NewestFirstOrder(NewestFirst(s))
    ensures multiset(NewestFirst(s)) == multiset(s)
    ensures forall t :: AtTime(NewestFirst(s), t) == AtTime(s, t)
  {
    if s != [] {
      NewestFirstSorted(s[1..]);
      InsertNewestOrder(s[0], NewestFirst(s[1..]));
      InsertNewestMultiset(s[0], NewestFirst(s[1..]));
      assert s == [s[0]] + s[1..];
      forall t ensures AtTime(NewestFirst(s), t) == AtTime(s, t) {
        InsertNewestAtTime(s[0], NewestFirst(s[1..]), t);
      }
    }
  }

  /** An entry is kept exactly when it is a candidate that satisfies the title-or-body rule. */
  lemma {:induction false} KeptIff(items: seq<Item>, body: string -> string, x: Item)
    ensures x in Kept(items, body) <==> x in items && Retained(x, body)
  {
    if items != [] {
      var init, last := items[..|items| - 1], items[|items| - 1];
      KeptIff(init, body, x);
      assert items == init + [last];
    }
  }

  /** The filter keeps the input order: it distributes over concatenation. */
  lemma {:induction false} KeptAppend(a: seq<Item>, b: seq<Item>, body: string -> string)
    ensures Kept(a + b, body) == Kept(a, body) + Kept(b, body)
  {
    if b == [] {
      assert a + b == a;
    } else {
      var init, last := b[..|b| - 1], b[|b| - 1];
      KeptAppend(a, init, body);
      assert (a + b)[..|a + b| - 1] == a + init;
      assert (a + b)[|a + b| - 1] == last;
    }
  }

  /** A body is fetched for a link exactly when some candidate with that link has a
      title that does not match. */
  lemma {:induction false} TitleMissesIff(items: seq<Item>, link: string)
    ensures link in TitleMisses(items) <==>
            exists i :: 0 <= i < |items| && items[i].link == link && !HasDayTerm(items[i].title)
  {
    if items != [] {
      var init, last := items[..|items| - 1], items[|items| - 1];
      TitleMissesIff(init, link);
      if exists i :: 0 <= i < |items| && items[i].link == link && !HasDayTerm(items[i].title) {
        var i :| 0 <= i < |items| && items[i].link == link && !HasDayTerm(items[i].title);
        if i < |init| { assert init[i] == items[i]; }
      }
      if exists i :: 0 <= i < |init| && init[i].link == link && !HasDayTerm(init[i].title) {
        var i :| 0 <= i < |init| && init[i].link == link && !HasDayTerm(init[i].title);
        assert items[i] == init[i];
      }
    }
  }

  // ---------------------------------------------------------------------------
  // build_message

  const MaxLen := 4096
  const NoArticlesMessage := "어제/오늘 기준으로 '1일'~'31일' 키워드가 포함된 기사가 없습니다."

  /** `"\n\n".join(blocks)`. */
  function Join(blocks: seq<string>): string
  {
    if |blocks| == 0 then ""
    else if |blocks| == 1 then blocks[0]
    else Join(blocks[..|blocks| - 1]) + "\n\n" + blocks[|blocks| - 1]
  }

  /** `"".join(parts)`. */
  function Concat(parts: seq<string>): string
  {
    if parts == [] then "" else Concat(parts[..|parts| - 1]) + parts[|parts| - 1]
  }

  /** Every block with its "\n\n" terminator, as the split loop appends them. */
  function Terminated(blocks: seq<string>): seq<string>
  {
    seq(|blocks|, i requires 0 <= i < |blocks| => blocks[i] + "\n\n")
  }

  /** The accumulators of the split loop: finished chunks, the open chunk and its size. */
  datatype Packing = Packing(chunks: seq<string>, chunk: seq<string>, size: int)

  /** One iteration of the split loop. */
  function Step(p: Packing, block: string): Packing
  {
    var b := block + "\n\n";
    if p.size + |b| > MaxLen then Packing(p.chunks + [Concat(p.chunk)], [b], |b|)
    else Packing(p.chunks, p.chunk + [b], p.size + |b|)
  }

  function Pack(blocks: seq<string>): Packing
  {
    if blocks == [] then Packing([], [], 0) else Step(Pack(blocks[..|blocks| - 1]), blocks[|blocks| - 1])
  }

  /** The result of the split branch: the finished chunks plus the open one, if any. */
  function SplitChunks(blocks: seq<string>): seq<string>
  {
    var p := Pack(blocks);
    if p.chunk != [] then p.chunks + [Concat(p.chunk)] else p.chunks
  }

  /** What build_message returns for the formatted blocks. */
  function Messages(blocks: seq<string>): seq<string>
  {
    if blocks == [] then [NoArticlesMessage]
    else if |Join(blocks)| <= MaxLen then [Join(blocks)]
    else SplitChunks(blocks)
  }

  /** A chunk is within the limit, or consists of one terminated block alone. */
  ghost predicate Fits(c: string, blocks: seq<string>)
  {
    |c| <= MaxLen || exists j :: 0 <= j < |blocks| && c == blocks[j] + "\n\n"
  }

  /** What the accumulators hold: the text so far, the open chunk's size, and the
      open chunk's presence. */
  ghost predicate PackContent(p: Packing, blocks: seq<string>)
  {
    && Concat(p.chunks) + Concat(p.chunk) == Concat(Terminated(blocks))
    && p.size == |Concat(p.chunk)|
    && (blocks != [] <==> p.chunk != [])
    && (blocks == [] ==> p.chunks == [])
    && (p.chunk != [] ==> p.size >= 2)
    && (|p.chunks| == 0 ==> p.size <= MaxLen)
  }

  /** How the chunks look: each fits or is one block, and only the first may be empty,
      exactly when the first block alone overflows. */
  ghost predicate PackShape(p: Packing, blocks: seq<string>)
  {
    && (forall k :: 0 <= k < |p.chunks| ==> Fits(p.chunks[k], blocks))
    && Fits(Concat(p.chunk), blocks)
    && (blocks != [] ==> ((|p.chunks| > 0 && p.chunks[0] == "") <==> |blocks[0]| + 2 > MaxLen))
    && (forall k :: 0 < k < |p.chunks| ==> p.chunks[k] != "")
  }

  lemma ConcatSnoc(parts: seq<string>, x: string)
    ensures Concat(parts + [x]) == Concat(parts) + x
  {
    assert (parts + [x])[..|parts|] == parts;
  }

  lemma TerminatedSnoc(blocks: seq<string>, b: string)
    ensures Terminated(blocks + [b]) == Terminated(blocks) + [b + "\n\n"]
  {
  }

  lemma FitsGrow(c: string, blocks: seq<string>, b: string)
    requires Fits(c, blocks)
    ensures Fits(c, blocks + [b])
  {
    if |c| > MaxLen {
      var j :| 0 <= j < |blocks| && c == blocks[j] + "\n\n";
      assert (blocks + [b])[j] == blocks[j];
    }
  }

  lemma StepOverflowContent(p: Packing, init: seq<string>, blk: string)
    requires PackContent(p, init) && p.size + |blk| + 2 > MaxLen
    ensures PackContent(Packing(p.chunks + [Concat(p.chunk)], [blk + "\n\n"], |blk| + 2), init + [blk])
  {
    var b := blk + "\n\n";
    TerminatedSnoc(init, blk);
    ConcatSnoc(Terminated(init), b);
    ConcatSnoc(p.chunks, Concat(p.chunk));
    ConcatSnoc([], b);
    assert [] + [b] == [b];
  }

  lemma StepFitContent(p: Packing, init: seq<string>, blk: string)
    requires PackContent(p, init) && p.size + |blk| + 2 <= MaxLen
    ensures PackContent(Packing(p.chunks, p.chunk + [blk + "\n\n"], p.size + |blk| + 2), init + [blk])
  {
    var b := blk + "\n\n";
    TerminatedSnoc(init, blk);
    ConcatSnoc(Terminated(init), b);
    ConcatSnoc(p.chunk, b);
  }

  lemma StepOverflowShape(p: Packing, init: seq<string>, blk: string)
    requires PackContent(p, init) && PackShape(p, init) && p.size + |blk| + 2 > MaxLen
    ensures PackShape(Packing(p.chunks + [Concat(p.chunk)], [blk + "\n\n"], |blk| + 2), init + [blk])
  {
    var blocks := init + [blk];
    var b := blk + "\n\n";
    var chunks := p.chunks + [Concat(p.chunk)];
    forall k | 0 <= k < |p.chunks| ensures Fits(chunks[k], blocks) {
      assert chunks[k] == p.chunks[k];
      FitsGrow(p.chunks[k], init, blk);
    }
    FitsGrow(Concat(p.chunk), init, blk);
    assert chunks[|p.chunks|] == Concat(p.chunk);
    ConcatSnoc([], b);
    assert [] + [b] == [b];
    assert blocks[|init|] == blk;
    assert Fits(Concat([b]), blocks);
    if init != [] {
      assert blocks[0] == init[0];
      assert Concat(p.chunk) != "";
      if |p.chunks| > 0 {
        assert chunks[0] == p.chunks[0];
      }
    }
  }

  lemma StepFitShape(p: Packing, init: seq<string>, blk: string)
    requires PackContent(p, init) && PackShape(p, init) && p.size + |blk| + 2 <= MaxLen
    ensures PackShape(Packing(p.chunks, p.chunk + [blk + "\n\n"], p.size + |blk| + 2), init + [blk])
  {
    var blocks := init + [blk];
    var b := blk + "\n\n";
    forall k | 0 <= k < |p.chunks| ensures Fits(p.chunks[k], blocks) {
      FitsGrow(p.chunks[k], init, blk);
    }
    ConcatSnoc(p.chunk, b);
    if init != [] {
      assert blocks[0] == init[0];
    }
  }

  lemma {:induction false} PackInvariant(blocks: seq<string>)
    ensures PackContent(Pack(blocks), blocks) && PackShape(Pack(blocks), blocks)
  {
    if blocks != [] {
      var init, blk := blocks[..|blocks| - 1], blocks[|blocks| - 1];
      assert blocks == init + [blk];
      PackInvariant(init);
      var p := Pack(init);
      if p.size + |blk| + 2 > MaxLen {
        StepOverflowContent(p, init, blk);
        StepOverflowShape(p, init, blk);
      } else {
        StepFitContent(p, init, blk);
        StepFitShape(p, init, blk);
      }
    }
  }

  /** Chunks of the split branch, concatenated, give every block followed by "\n\n"
      in input order: nothing is dropped or reordered. */
  lemma {:induction false} JoinTerminated(blocks: seq<string>)
    requires blocks != []
    ensures Concat(Terminated(blocks)) == Join(blocks) + "\n\n"
  {
    if |blocks| == 1 {
      assert Terminated(blocks) == [] + [blocks[0] + "\n\n"];
      ConcatSnoc([], blocks[0] + "\n\n");
    } else {
      var init, blk := blocks[..|blocks| - 1], blocks[|blocks| - 1];
      JoinTerminated(init);
      assert blocks == init + [blk];
      TerminatedSnoc(init, blk);
      ConcatSnoc(Terminated(init), blk + "\n\n");
    }
  }

  /** The open chunk at the end of the split loop is present and non-empty. */
  lemma LastChunk(blocks: seq<string>)
    requires blocks != []
    ensures Pack(blocks).chunk != [] && Concat(Pack(blocks).chunk) != ""
    ensures SplitChunks(blocks) == Pack(blocks).chunks + [Concat(Pack(blocks).chunk)]
  {
    PackInvariant(blocks);
  }

  /** The chunks of the split branch, concatenated, are the joined text plus "\n\n". */
  lemma SplitConcat(blocks: seq<string>)
    requires blocks != []
    ensures Concat(SplitChunks(blocks)) == Join(blocks) + "\n\n"
  {
    var p := Pack(blocks);
    PackInvariant(blocks);
    LastChunk(blocks);
    JoinTerminated(blocks);
    ConcatSnoc(p.chunks, Concat(p.chunk));
  }

  /** When the joined text is over the limit, some chunk was closed before the last one. */
  lemma SplitClosed(blocks: seq<string>)
    requires blocks != [] && |Join(blocks)| > MaxLen
    ensures |Pack(blocks).chunks| > 0
  {
    var p := Pack(blocks);
    PackInvariant(blocks);
    JoinTerminated(blocks);
    var whole := Concat(p.chunks) + Concat(p.chunk);
    assert |whole| == |Join(blocks)| + 2;
    assert p.chunks == [] ==> |whole| == p.size;
  }

  /** The split branch yields at least two chunks. */
  lemma SplitCount(blocks: seq<string>)
    requires blocks != [] && |Join(blocks)| > MaxLen
    ensures |SplitChunks(blocks)| >= 2
  {
    LastChunk(blocks);
    SplitClosed(blocks);
  }

  /** The shape half of the packing invariant, on its own. */
  lemma PackShapeHolds(blocks: seq<string>)
    ensures PackShape(Pack(blocks), blocks)
  {
    PackInvariant(blocks);
  }

  /** Every chunk of the split branch is within the limit or one terminated block. */
  lemma SplitFits(blocks: seq<string>)
    requires blocks != []
    ensures forall k :: 0 <= k < |SplitChunks(blocks)| ==> Fits(SplitChunks(blocks)[k], blocks)
  {
    var p := Pack(blocks);
    PackShapeHolds(blocks);
    LastChunk(blocks);
    var r := SplitChunks(blocks);
    forall k | 0 <= k < |r| ensures Fits(r[k], blocks) {
      if k < |p.chunks| {
        assert r[k] == p.chunks[k];
      } else {
        assert r[k] == Concat(p.chunk);
      }
    }
  }

  /** The first chunk of the split branch is empty exactly when the first terminated
      block alone is over the limit. */
  lemma SplitFirstEmpty(blocks: seq<string>)
    requires blocks != [] && |Join(blocks)| > MaxLen
    ensures |SplitChunks(blocks)| >= 2
    ensures SplitChunks(blocks)[0] == "" <==> |blocks[0]| + 2 > MaxLen
  {
    var p := Pack(blocks);
    SplitCount(blocks);
    PackInvariant(blocks);
    LastChunk(blocks);
    SplitClosed(blocks);
    assert SplitChunks(blocks)[0] == p.chunks[0];
  }

  /** No chunk after the first is empty. */
  lemma SplitLaterNonEmpty(blocks: seq<string>)
    requires blocks != []
    ensures forall k :: 0 < k < |SplitChunks(blocks)| ==> SplitChunks(blocks)[k] != ""
  {
    var p := Pack(blocks);
    PackShapeHolds(blocks);
    LastChunk(blocks);
    var r := SplitChunks(blocks);
    forall k | 0 < k < |r| ensures r[k] != "" {
      if k < |p.chunks| {
        assert r[k] == p.chunks[k];
      } else {
        assert r[k] == Concat(p.chunk);
      }
    }
  }

  /** The split branch: at least two chunks; their concatenation is the joined text plus
      a final "\n\n"; a chunk over the limit is a single block; the first chunk is empty
      exactly when the first block alone overflows, and no later chunk is empty. */
  lemma SplitChunksFacts(blocks: seq<string>)
    requires blocks != [] && |Join(blocks)| > MaxLen
    ensures |SplitChunks(blocks)| >= 2
    ensures Concat(SplitChunks(blocks)) == Join(blocks) + "\n\n"
    ensures forall k :: 0 <= k < |SplitChunks(blocks)| ==> Fits(SplitChunks(blocks)[k], blocks)
    ensures SplitChunks(blocks)[0] == "" <==> |blocks[0]| + 2 > MaxLen
    ensures forall k :: 0 < k < |SplitChunks(blocks)| ==> SplitChunks(blocks)[k] != ""
  {
    SplitCount(blocks);
    SplitConcat(blocks);
    SplitFits(blocks);
    SplitFirstEmpty(blocks);
    SplitLaterNonEmpty(blocks);
  }

  /** build_message: greedy packing of the terminated blocks, starting a new chunk when
      the next block would push the open chunk past 4096 characters. */
  method BuildMessage(blocks: seq<string>) returns (msgs: seq<string>)
    ensures msgs == Messages(blocks)
    ensures blocks == [] ==> msgs == [NoArticlesMessage]
    ensures blocks != [] && |Join(blocks)| <= MaxLen ==> msgs == [Join(blocks)]
    ensures blocks != [] && |Join(blocks)| > MaxLen ==>
              |msgs| >= 2 && Concat(msgs) == Join(blocks) + "\n\n"
              && (msgs[0] == "" <==> |blocks[0]| + 2 > MaxLen)
  {
    if blocks == [] {
      return [NoArticlesMessage];
    }
    var text := Join(blocks);
    if |text| <= MaxLen {
      return [text];
    }
    var chunks: seq<string> := [];
    var chunk: seq<string> := [];
    var size := 0;
    for i := 0 to |blocks|
      invariant Packing(chunks, chunk, size) == Pack(blocks[..i])
    {
      assert blocks[..i + 1][..i] == blocks[..i];
      var block := blocks[i] + "\n\n";
      if size + |block| > MaxLen {
        chunks := chunks + [Concat(chunk)];
        chunk, size := [block], |block|;
      } else {
        chunk := chunk + [block];
        size := size + |block|;
      }
    }
    assert blocks[..|blocks|] == blocks;
    if chunk != [] {
      chunks := chunks + [Concat(chunk)];
    }
    SplitChunksFacts(blocks);
    msgs := chunks;
  }
}
