/**
  Lab-1: product reviews, one per line, of the shape

    CustomerID: <ID>, ProductID: <ID>, ReviewDate: dddd-dd-dd, ReviewRating: d, ReviewText: "<text>"

  are validated, counted, grouped by product, averaged and ranked.
  The regular expression is written out as a parser over characters.
 */
module Reviews {
  import opened Common
  import Ranking

  datatype Review = Review(customerId: string, productId: string, date: string, rating: int, text: string)

  /** The pair `(record, error)` returned for one line. */
  datatype Parsed = Accepted(review: Review) | Rejected(reason: string)

  const InvalidMessage: string := "Invalid format or rating"

  const CustomerTag: string := "CustomerID: "
  const ProductTag: string := ", ProductID: "
  const DateTag: string := ", ReviewDate: "
  const RatingTag: string := ", ReviewRating: "
  const TextTag: string := ", ReviewText: \""

  /** `[A-Z0-9]` */
  predicate IsIdChar(c: char) {
    'A' <= c <= 'Z' || IsDigit(c)
  }

  /** `[A-Z0-9]+` */
  predicate IsId(s: string) {
    |s| > 0 && forall i :: 0 <= i < |s| ==> IsIdChar(s[i])
  }

  /** `\d{4}-\d{2}-\d{2}` */
  predicate IsDate(s: string) {
    && |s| == 10 && s[4] == '-' && s[7] == '-'
    && IsDigit(s[0]) && IsDigit(s[1]) && IsDigit(s[2]) && IsDigit(s[3])
    && IsDigit(s[5]) && IsDigit(s[6]) && IsDigit(s[8]) && IsDigit(s[9])
  }

  /** `.+` (any characters but a newline, at least one) */
  predicate IsText(s: string) {
    |s| > 0 && '\n' !in s
  }

  /** Fields the pattern can capture; the rating is the value of one digit. */
  predicate WellFormed(r: Review) {
    IsId(r.customerId) && IsId(r.productId) && IsDate(r.date) && 0 <= r.rating <= 9 && IsText(r.text)
  }

  /**
    A line the pattern matches with the fields of `r`: the formatted review up
    to its closing quote, then an unmatched `tail`.
   */
  function Line(r: Review, tail: string): string
    requires 0 <= r.rating <= 9
  {
    CustomerTag + (r.customerId + (ProductTag + FromProduct(r.productId, r.date, r.rating, r.text, tail)))
  }

  /** The part of a line from the product ID on. */
  function FromProduct(p: string, date: string, d: int, t: string, tail: string): string
    requires 0 <= d <= 9
  {
    p + (DateTag + FromDate(date, d, t, tail))
  }

  /** The part of a line from the date on. */
  function FromDate(date: string, d: int, t: string, tail: string): string
    requires 0 <= d <= 9
  {
    date + (RatingTag + FromRating(d, t, tail))
  }

  /** The part of a line from the rating digit on. */
  function FromRating(d: int, t: string, tail: string): string
    requires 0 <= d <= 9
  {
    [DigitChar(d)] + (TextTag + (t + ("\"" + tail)))
  }

  /**
    What follows the closing quote: since `(.+)` is greedy, no later quote may
    be reachable from the text without crossing a newline.
   */
  predicate NoLaterQuote(tail: string) {
    forall k :: 0 <= k < |tail| && tail[k] == '"' ==> '\n' in tail[..k]
  }

  /** Length of the longest prefix of `s` in `[A-Z0-9]*`. */
  function IdLength(s: string): (k: nat)
    ensures k <= |s|
    ensures forall i :: 0 <= i < k ==> IsIdChar(s[i])
    ensures k < |s| ==> !IsIdChar(s[k])
  {
    if s == [] || !IsIdChar(s[0]) then 0 else 1 + IdLength(s[1..])
  }

  /** Index of the first newline in `s`, or `|s|`. */
  function NewlineIndex(s: string): (n: nat)
    ensures n <= |s| && '\n' !in s[..n]
    ensures n < |s| ==> s[n] == '\n'
  {
    if s == [] || s[0] == '\n' then 0
    else
      var n := 1 + NewlineIndex(s[1..]);
      assert s[..n] == [s[0]] + s[1..][..n - 1];
      n
  }

  /** The largest `j` with `1 <= j < hi` and `s[j] == '"'`, or 0 when there is none. */
  function LastQuoteBefore(s: string, hi: nat): (j: nat)
    requires hi <= |s|
    ensures j == 0 || (j < hi && s[j] == '"')
    ensures forall k :: j < k < hi && 1 <= k ==> s[k] != '"'
  {
    if hi <= 1 then 0
    else if s[hi - 1] == '"' then hi - 1
    else LastQuoteBefore(s, hi - 1)
  }

  /** `(.+)"`: the captured text and the unmatched rest after the closing quote. */
  function MatchText(s: string): Option<(string, string)> {
    var t := LastQuoteBefore(s, NewlineIndex(s));
    if t == 0 then None else Some((s[..t], s[t + 1..]))
  }

  /** `(\d), ReviewText: "(.+)"` */
  function MatchRating(s: string): Option<(int, string, string)> {
    if s == [] || !IsDigit(s[0]) || !StartsWith(s[1..], TextTag) then None
    else
      var m := MatchText(s[1 + |TextTag|..]);
      if m.None? then None else Some((DigitValue(s[0]) as int, m.value.0, m.value.1))
  }

  /** `(\d{4}-\d{2}-\d{2}), ReviewRating: ` and the rest */
  function MatchDate(s: string): Option<(string, int, string, string)> {
    if |s| < 10 || !IsDate(s[..10]) || !StartsWith(s[10..], RatingTag) then None
    else
      var m := MatchRating(s[10 + |RatingTag|..]);
      if m.None? then None else Some((s[..10], m.value.0, m.value.1, m.value.2))
  }

  /** `([A-Z0-9]+), ReviewDate: ` and the rest */
  function MatchProduct(s: string): Option<(string, string, int, string, string)> {
    var n := IdLength(s);
    if n == 0 || !StartsWith(s[n..], DateTag) then None
    else
      var m := MatchDate(s[n + |DateTag|..]);
      if m.None? then None else Some((s[..n], m.value.0, m.value.1, m.value.2, m.value.3))
  }

  /** `([A-Z0-9]+), ProductID: ` and the rest, as a review and the unmatched tail */
  function MatchCustomer(s: string): Option<(Review, string)> {
    var n := IdLength(s);
    if n == 0 || !StartsWith(s[n..], ProductTag) then None
    else
      var m := MatchProduct(s[n + |ProductTag|..]);
      if m.None? then None
      else Some((Review(s[..n], m.value.0, m.value.1, m.value.2, m.value.3), m.value.4))
  }

  /** `re.match` of the whole pattern: anchored at the start of `s`, not at its end. */
  function MatchLine(s: string): Option<(Review, string)> {
    if !StartsWith(s, CustomerTag) then None else MatchCustomer(s[|CustomerTag|..])
  }

  predicate StartsWith(s: string, prefix: string) {
    prefix <= s
  }

  /** A string that holds `tag` at offset `k` is what precedes it, `tag`, and what follows. */
  lemma SplitAt(s: string, k: nat, tag: string)
    requires k <= |s| && StartsWith(s[k..], tag)
    ensures k + |tag| <= |s|
    ensures s == s[..k] + (tag + s[k + |tag|..])
  {
    assert s[k..] == tag + s[k + |tag|..];
    assert s == s[..k] + s[k..];
  }

  lemma {:induction false} IdLengthOf(id: string, rest: string)
    requires forall i :: 0 <= i < |id| ==> IsIdChar(id[i])
    requires rest != [] && !IsIdChar(rest[0])
    ensures IdLength(id + rest) == |id|
  {
    if id == [] {
      assert id + rest == rest;
    } else {
      assert (id + rest)[1..] == id[1..] + rest;
      IdLengthOf(id[1..], rest);
    }
  }

  lemma MatchTextSound(s: string, t: string, tail: string)
    requires MatchText(s) == Some((t, tail))
    ensures IsText(t) && NoLaterQuote(tail) && s == t + ("\"" + tail)
  {
    var n := NewlineIndex(s);
    var j := LastQuoteBefore(s, n);
    assert t == s[..j] && tail == s[j + 1..];
    QuoteSplit(s, j);
    NoNewlineBefore(s, n, j);
    NoQuoteAfter(s, n, j);
  }

  lemma QuoteSplit(s: string, j: nat)
    requires j < |s| && s[j] == '"'
    ensures s == s[..j] + ("\"" + s[j + 1..])
  {
    assert s[j..] == "\"" + s[j + 1..];
    assert s == s[..j] + s[j..];
  }

  lemma NoNewlineBefore(s: string, n: nat, j: nat)
    requires j <= n <= |s| && '\n' !in s[..n]
    ensures '\n' !in s[..j]
  {
    assert s[..n][..j] == s[..j];
  }

  /** After the last quote before the first newline, every quote follows a newline. */
  lemma NoQuoteAfter(s: string, n: nat, j: nat)
    requires j < n <= |s| && (n < |s| ==> s[n] == '\n')
    requires forall k :: j < k < n && 1 <= k ==> s[k] != '"'
    ensures NoLaterQuote(s[j + 1..])
  {
    var tail := s[j + 1..];
    forall k | 0 <= k < |tail| && tail[k] == '"'
      ensures '\n' in tail[..k]
    {
      assert s[j + 1 + k] == '"';
      assert tail[..k][n - j - 1] == '\n';
    }
  }

  lemma MatchTextComplete(t: string, tail: string)
    requires IsText(t) && NoLaterQuote(tail)
    ensures MatchText(t + ("\"" + tail)) == Some((t, tail))
  {
    var u := t + ("\"" + tail);
    var n := NewlineIndex(u);
    assert u[..|t|] == t;
    assert u[|t|] == '"';
    assert u[|t| + 1..] == tail;
    if n <= |t| {
      assert false;
    }
    var j := LastQuoteBefore(u, n);
    if j > |t| {
      assert false;
    }
  }

  lemma MatchRatingSound(s: string, d: int, t: string, tail: string)
    requires MatchRating(s) == Some((d, t, tail))
    ensures 0 <= d <= 9 && IsText(t) && NoLaterQuote(tail) && s == FromRating(d, t, tail)
  {
    var rest := s[1 + |TextTag|..];
    assert StartsWith(s[1..], TextTag) && IsDigit(s[0]);
    assert MatchText(rest) == Some((t, tail));
    MatchTextSound(rest, t, tail);
    SplitAt(s, 1, TextTag);
    assert s[..1] == [s[0]];
  }

  lemma MatchRatingComplete(d: int, t: string, tail: string)
    requires 0 <= d <= 9 && IsText(t) && NoLaterQuote(tail)
    ensures MatchRating(FromRating(d, t, tail)) == Some((d, t, tail))
  {
    var s := [DigitChar(d)] + (TextTag + (t + ("\"" + tail)));
    assert s == FromRating(d, t, tail);
    assert s[1..] == TextTag + (t + ("\"" + tail));
    assert s[1 + |TextTag|..] == t + ("\"" + tail);
    assert StartsWith(s[1..], TextTag);
    assert DigitValue(s[0]) == d;
    MatchTextComplete(t, tail);
  }

  lemma MatchDateSound(s: string, date: string, d: int, t: string, tail: string)
    requires MatchDate(s) == Some((date, d, t, tail))
    ensures IsDate(date) && 0 <= d <= 9 && IsText(t) && NoLaterQuote(tail)
    ensures s == FromDate(date, d, t, tail)
  {
    MatchRatingSound(s[10 + |RatingTag|..], d, t, tail);
    SplitAt(s, 10, RatingTag);
  }

  lemma MatchDateComplete(date: string, d: int, t: string, tail: string)
    requires IsDate(date) && 0 <= d <= 9 && IsText(t) && NoLaterQuote(tail)
    ensures MatchDate(FromDate(date, d, t, tail)) == Some((date, d, t, tail))
  {
    var r := FromRating(d, t, tail);
    var s := date + (RatingTag + r);
    assert s[..10] == date;
    assert s[10..] == RatingTag + r;
    assert s[10 + |RatingTag|..] == r;
    MatchRatingComplete(d, t, tail);
  }

  lemma MatchProductSound(s: string, p: string, date: string, d: int, t: string, tail: string)
    requires MatchProduct(s) == Some((p, date, d, t, tail))
    ensures IsId(p) && IsDate(date) && 0 <= d <= 9 && IsText(t) && NoLaterQuote(tail)
    ensures s == FromProduct(p, date, d, t, tail)
  {
    var n := IdLength(s);
    var rest := s[n + |DateTag|..];
    assert n > 0 && StartsWith(s[n..], DateTag);
    assert MatchDate(rest) == Some((date, d, t, tail));
    MatchDateSound(rest, date, d, t, tail);
    SplitAt(s, n, DateTag);
  }

  lemma MatchProductComplete(p: string, date: string, d: int, t: string, tail: string)
    requires IsId(p) && IsDate(date) && 0 <= d <= 9 && IsText(t) && NoLaterQuote(tail)
    ensures MatchProduct(FromProduct(p, date, d, t, tail)) == Some((p, date, d, t, tail))
  {
    var r := FromDate(date, d, t, tail);
    var s := p + (DateTag + r);
    IdLengthOf(p, DateTag + r);
    assert s[|p|..] == DateTag + r;
    assert s[|p| + |DateTag|..] == r;
    assert s[..|p|] == p;
    MatchDateComplete(date, d, t, tail);
  }

  lemma MatchCustomerSound(s: string, r: Review, tail: string)
    requires MatchCustomer(s) == Some((r, tail))
    ensures WellFormed(r) && NoLaterQuote(tail)
    ensures s == r.customerId + (ProductTag + FromProduct(r.productId, r.date, r.rating, r.text, tail))
  {
    var n := IdLength(s);
    var rest := s[n + |ProductTag|..];
    assert n > 0 && StartsWith(s[n..], ProductTag);
    assert MatchProduct(rest) == Some((r.productId, r.date, r.rating, r.text, tail));
    MatchProductSound(rest, r.productId, r.date, r.rating, r.text, tail);
    SplitAt(s, n, ProductTag);
  }

  /** What the pattern reads when it matches: well-formed fields, then a tail it ignores. */
  lemma MatchLineSound(s: string, r: Review, tail: string)
    requires MatchLine(s) == Some((r, tail))
    ensures WellFormed(r) && NoLaterQuote(tail) && s == Line(r, tail)
  {
    MatchCustomerSound(s[|CustomerTag|..], r, tail);
    SplitAt(s, 0, CustomerTag);
    assert s[..0] + (CustomerTag + s[|CustomerTag|..]) == CustomerTag + s[|CustomerTag|..];
  }

  lemma MatchCustomerComplete(r: Review, tail: string)
    requires WellFormed(r) && NoLaterQuote(tail)
    ensures MatchCustomer(r.customerId + (ProductTag + FromProduct(r.productId, r.date, r.rating, r.text, tail)))
         == Some((r, tail))
  {
    var rest := FromProduct(r.productId, r.date, r.rating, r.text, tail);
    var s := r.customerId + (ProductTag + rest);
    IdLengthOf(r.customerId, ProductTag + rest);
    assert s[|r.customerId|..] == ProductTag + rest;
    assert s[|r.customerId| + |ProductTag|..] == rest;
    assert s[..|r.customerId|] == r.customerId;
    MatchProductComplete(r.productId, r.date, r.rating, r.text, tail);
  }

  /** The pattern matches every well-formed review followed by a tail offering no later quote. */
  lemma MatchLineComplete(r: Review, tail: string)
    requires WellFormed(r) && NoLaterQuote(tail)
    ensures MatchLine(Line(r, tail)) == Some((r, tail))
  {
    var s1 := r.customerId + (ProductTag + FromProduct(r.productId, r.date, r.rating, r.text, tail));
    assert Line(r, tail)[|CustomerTag|..] == s1;
    MatchCustomerComplete(r, tail);
  }

  /**
    `extract_review_data`: the stripped line must match the pattern and the
    rating digit must be 1 to 5; otherwise the error message is returned.
   */
  function ParseReview(line: string): (p: Parsed)
    ensures p.Rejected? ==> p.reason == InvalidMessage
    ensures p.Accepted? ==> WellFormed(p.review) && 1 <= p.review.rating <= 5
  {
    match MatchLine(Strip(line))
    case None => Rejected(InvalidMessage)
    case Some((r, tail)) =>
      MatchLineSound(Strip(line), r, tail);
      if 1 <= r.rating <= 5 then Accepted(r) else Rejected(InvalidMessage)
  }

  /** An accepted line is, once stripped, the formatted review followed by an ignored tail. */
  lemma ParseReviewSound(line: string, r: Review)
    requires ParseReview(line) == Accepted(r)
    ensures WellFormed(r) && 1 <= r.rating <= 5
    ensures exists tail :: NoLaterQuote(tail) && Strip(line) == Line(r, tail)
  {
    var tail := MatchLine(Strip(line)).value.1;
    MatchLineSound(Strip(line), r, tail);
  }

  /**
    A line whose stripped form is a formatted review is accepted exactly when
    the rating is 1 to 5: ratings 0 and 6 to 9 match the digit but are refused.
   */
  lemma ParseReviewComplete(line: string, r: Review, tail: string)
    requires WellFormed(r) && NoLaterQuote(tail)
    requires Strip(line) == Line(r, tail)
    ensures ParseReview(line) == if 1 <= r.rating <= 5 then Accepted(r) else Rejected(InvalidMessage)
  {
    MatchLineComplete(r, tail);
  }

  /** The reviews accepted among `lines`, in line order. */
  function AcceptedReviews(lines: seq<string>): (rs: seq<Review>)
    ensures |rs| <= |lines|
  {
    if lines == [] then []
    else
      var rs := AcceptedReviews(lines[..|lines| - 1]);
      var parsed := ParseReview(lines[|lines| - 1]);
      if parsed.Accepted? then rs + [parsed.review] else rs
  }

  /** Every accepted review has a well-formed rating of 1 to 5. */
  lemma {:induction false} AcceptedInRange(lines: seq<string>)
    ensures forall r :: r in AcceptedReviews(lines) ==> WellFormed(r) && 1 <= r.rating <= 5
  {
    if lines != [] {
      AcceptedInRange(lines[..|lines| - 1]);
    }
  }

  function ProductIds(rs: seq<Review>): (ps: seq<string>)
    ensures |ps| == |rs|
  {
    if rs == [] then [] else ProductIds(rs[..|rs| - 1]) + [rs[|rs| - 1].productId]
  }

  /** The ratings of the reviews of product `p`, in order. */
  function RatingsOf(rs: seq<Review>, p: string): seq<int> {
    if rs == [] then []
    else
      var last := rs[|rs| - 1];
      RatingsOf(rs[..|rs| - 1], p) + (if last.productId == p then [last.rating] else [])
  }

  lemma AcceptedStep(lines: seq<string>, i: nat, parsed: Parsed)
    requires i < |lines| && parsed == ParseReview(lines[i])
    ensures AcceptedReviews(lines[..i + 1])
         == AcceptedReviews(lines[..i]) + (if parsed.Accepted? then [parsed.review] else [])
  {
    assert lines[..i + 1][..i] == lines[..i];
  }

  /** Appending a review appends its product and its rating to that product's list. */
  lemma GroupStep(rs: seq<Review>, r: Review)
    ensures ProductIds(rs + [r]) == ProductIds(rs) + [r.productId]
    ensures Dedup(ProductIds(rs + [r]))
         == if r.productId in Dedup(ProductIds(rs)) then Dedup(ProductIds(rs)) else Dedup(ProductIds(rs)) + [r.productId]
    ensures forall p :: RatingsOf(rs + [r], p) == RatingsOf(rs, p) + (if r.productId == p then [r.rating] else [])
  {
    assert (rs + [r])[..|rs|] == rs;
    var ps := ProductIds(rs + [r]);
    assert ps[..|ps| - 1] == ProductIds(rs);
  }

  /**
    `products` and `ratings` are the key order and the contents of the
    `defaultdict(list)` after the ratings of `accepted` were appended in turn.
   */
  ghost predicate GroupedAs(accepted: seq<Review>, products: seq<string>, ratings: map<string, seq<int>>) {
    && products == Dedup(ProductIds(accepted))
    && (forall p :: p in ratings <==> p in products)
    && (forall p :: p in ratings ==> ratings[p] == RatingsOf(accepted, p))
  }

  /** Appending one more review's rating keeps the dict in step with the reviews. */
  lemma GroupedAsStep(accepted: seq<Review>, products: seq<string>, ratings: map<string, seq<int>>, r: Review)
    requires GroupedAs(accepted, products, ratings)
    ensures GroupedAs(accepted + [r],
      if r.productId in ratings then products else products + [r.productId],
      ratings[r.productId := (if r.productId in ratings then ratings[r.productId] else []) + [r.rating]])
  {
    var pid := r.productId;
    var products' := if pid in ratings then products else products + [pid];
    var ratings' := ratings[pid := (if pid in ratings then ratings[pid] else []) + [r.rating]];
    GroupStep(accepted, r);
    assert products' == Dedup(ProductIds(accepted + [r]));
    assert forall p :: p in ratings' <==> p in products';
    if pid !in ratings {
      DedupHas(ProductIds(accepted), pid);
      RatingsOfEmpty(accepted, pid);
    }
    RatingsStep(accepted, ratings, r);
    assert GroupedAs(accepted + [r], products', ratings');
  }

  lemma RatingsStep(accepted: seq<Review>, ratings: map<string, seq<int>>, r: Review)
    requires forall p :: p in ratings ==> ratings[p] == RatingsOf(accepted, p)
    requires r.productId !in ratings ==> RatingsOf(accepted, r.productId) == []
    ensures var ratings' := ratings[r.productId := (if r.productId in ratings then ratings[r.productId] else []) + [r.rating]];
      forall p :: p in ratings' ==> ratings'[p] == RatingsOf(accepted + [r], p)
  {
    assert (accepted + [r])[..|accepted|] == accepted;
  }

  /**
    The loop of `process_files` over the lines of all review files: every line
    is counted, as valid or invalid, and each valid review's rating is appended
    to its product's list; `products` is the key order of that dict.
   */
  method ProcessReviewLines(lines: seq<string>)
    returns (products: seq<string>, ratings: map<string, seq<int>>, total: nat, valid: nat, invalid: nat)
    ensures total == |lines| && total == valid + invalid
    ensures valid == |AcceptedReviews(lines)|
    ensures products == Products(lines)
    ensures forall p :: p in ratings <==> p in products
    ensures forall p :: p in ratings ==> ratings[p] == RatingsOf(AcceptedReviews(lines), p)
    ensures ratings == Grouped(lines)
  {
    total, valid, invalid := 0, 0, 0;
    products, ratings := [], map[];
    ghost var accepted: seq<Review> := [];
    for i := 0 to |lines|
      invariant accepted == AcceptedReviews(lines[..i])
      invariant total == i && total == valid + invalid && valid == |accepted|
      invariant GroupedAs(accepted, products, ratings)
    {
      var parsed := ParseReview(lines[i]);
      AcceptedStep(lines, i, parsed);
      total := total + 1;
      if parsed.Accepted? {
        var r := parsed.review;
        GroupedAsStep(accepted, products, ratings, r);
        accepted := accepted + [r];
        valid := valid + 1;
        var current := if r.productId in ratings then ratings[r.productId] else [];
        if r.productId !in ratings {
          products := products + [r.productId];
        }
        ratings := ratings[r.productId := current + [r.rating]];
      } else {
        invalid := invalid + 1;
      }
    }
    assert lines[..|lines|] == lines;
    forall p {
      DedupHas(ProductIds(AcceptedReviews(lines)), p);
    }
  }

  /** A product has ratings exactly when it has a review. */
  lemma {:induction false} RatingsOfEmpty(rs: seq<Review>, p: string)
    ensures RatingsOf(rs, p) == [] <==> p !in ProductIds(rs)
  {
    if rs != [] {
      var init := rs[..|rs| - 1];
      RatingsOfEmpty(init, p);
      assert ProductIds(rs) == ProductIds(init) + [rs[|rs| - 1].productId];
    }
  }

  /** Every grouped rating is 1 to 5, as every accepted one is. */
  lemma {:induction false} RatingsOfInRange(rs: seq<Review>, p: string)
    requires forall r :: r in rs ==> 1 <= r.rating <= 5
    ensures forall i :: 0 <= i < |RatingsOf(rs, p)| ==> 1 <= RatingsOf(rs, p)[i] <= 5
  {
    if rs != [] {
      assert forall i :: 0 <= i < |rs| - 1 ==> rs[..|rs| - 1][i] == rs[i];
      RatingsOfInRange(rs[..|rs| - 1], p);
    }
  }

  /** A product's list holds one rating per review of that product. */
  lemma {:induction false} RatingsOfCount(rs: seq<Review>, p: string)
    ensures |RatingsOf(rs, p)| == multiset(ProductIds(rs))[p]
  {
    if rs != [] {
      var init := rs[..|rs| - 1];
      RatingsOfCount(init, p);
      assert ProductIds(rs) == ProductIds(init) + [rs[|rs| - 1].productId];
    }
  }

  /** Total number of ratings in the lists of the products `ps`. */
  function GroupSizes(ps: seq<string>, rs: seq<Review>): nat {
    if ps == [] then 0 else GroupSizes(ps[..|ps| - 1], rs) + |RatingsOf(rs, ps[|ps| - 1])|
  }

  lemma {:induction false} GroupSizesCounts(ps: seq<string>, rs: seq<Review>)
    ensures GroupSizes(ps, rs) == SumCounts(ps, ProductIds(rs))
  {
    if ps != [] {
      GroupSizesCounts(ps[..|ps| - 1], rs);
      RatingsOfCount(rs, ps[|ps| - 1]);
    }
  }

  /** Each valid review lands in exactly one product's list, exactly once. */
  lemma EachReviewGroupedOnce(lines: seq<string>)
    ensures GroupSizes(Dedup(ProductIds(AcceptedReviews(lines))), AcceptedReviews(lines))
         == |AcceptedReviews(lines)|
  {
    var rs := AcceptedReviews(lines);
    GroupSizesCounts(Dedup(ProductIds(rs)), rs);
    SumCountsDedup(ProductIds(rs));
  }

  function Sum(xs: seq<int>): int {
    if xs == [] then 0 else Sum(xs[..|xs| - 1]) + xs[|xs| - 1]
  }

  /** `sum(ratings) / len(ratings)`, computed exactly. */
  function Mean(xs: seq<int>): (m: real)
    requires xs != []
    ensures m * |xs| as real == Sum(xs) as real
  {
    Sum(xs) as real / |xs| as real
  }

  lemma {:induction false} SumBounds(xs: seq<int>, lo: int, hi: int)
    requires forall i :: 0 <= i < |xs| ==> lo <= xs[i] <= hi
    ensures |xs| * lo <= Sum(xs) <= |xs| * hi
  {
    if xs != [] {
      var init := xs[..|xs| - 1];
      assert forall i :: 0 <= i < |init| ==> init[i] == xs[i];
      SumBounds(init, lo, hi);
      assert Sum(xs) == Sum(init) + xs[|xs| - 1];
      assert |xs| * lo == |init| * lo + lo && |xs| * hi == |init| * hi + hi;
    }
  }

  /** The mean of values in `[lo, hi]` lies in `[lo, hi]`. */
  lemma MeanBounds(xs: seq<int>, lo: int, hi: int)
    requires xs != []
    requires forall i :: 0 <= i < |xs| ==> lo <= xs[i] <= hi
    ensures lo as real <= Mean(xs) <= hi as real
  {
    SumBounds(xs, lo, hi);
    var n := |xs| as real;
    assert Mean(xs) * n == Sum(xs) as real;
    assert lo as real * n <= Mean(xs) * n <= hi as real * n;
  }

  /**
    `calculate_average_ratings`: one `(product, average)` item per product,
    in the dict's order.
   */
  function AverageRatings(products: seq<string>, ratings: map<string, seq<int>>): (avgs: seq<(string, real)>)
    requires forall i :: 0 <= i < |products| ==> products[i] in ratings && ratings[products[i]] != []
    ensures |avgs| == |products|
    ensures forall i :: 0 <= i < |avgs| ==>
      avgs[i].0 == products[i] && avgs[i].1 * |ratings[products[i]]| as real == Sum(ratings[products[i]]) as real
  {
    seq(|products|, i requires 0 <= i < |products| => (products[i], Mean(ratings[products[i]])))
  }

  /** The grouping `ProcessReviewLines` produces for `lines`. */
  function Grouped(lines: seq<string>): map<string, seq<int>> {
    var rs := AcceptedReviews(lines);
    map p | p in ProductIds(rs) :: RatingsOf(rs, p)
  }

  /** The products with a valid review, in order of first appearance. */
  function Products(lines: seq<string>): seq<string> {
    Dedup(ProductIds(AcceptedReviews(lines)))
  }

  /** Averaging the grouped ratings never divides by zero, and every average is in [1, 5]. */
  lemma AveragesInRange(lines: seq<string>)
    ensures forall i :: 0 <= i < |Products(lines)| ==>
      Products(lines)[i] in Grouped(lines) && Grouped(lines)[Products(lines)[i]] != []
    ensures forall i :: 0 <= i < |Products(lines)| ==> 1.0 <= Mean(Grouped(lines)[Products(lines)[i]]) <= 5.0
  {
    var rs := AcceptedReviews(lines);
    var products := Dedup(ProductIds(rs));
    AcceptedInRange(lines);
    forall i | 0 <= i < |products|
      ensures products[i] in Grouped(lines) && Grouped(lines)[products[i]] != []
      ensures 1.0 <= Mean(Grouped(lines)[products[i]]) <= 5.0
    {
      DedupHas(ProductIds(rs), products[i]);
      RatingsOfEmpty(rs, products[i]);
      RatingsOfInRange(rs, products[i]);
      MeanBounds(RatingsOf(rs, products[i]), 1, 5);
    }
  }

  function AverageOf(item: (string, real)): real {
    item.1
  }

  /** `get_top_products` is called with its default `top_n`. */
  const DefaultTopN: nat := 3

  /** The average rating of every product with a valid review, in order of first appearance. */
  function Averages(lines: seq<string>): (avgs: seq<(string, real)>)
    ensures forall i :: 0 <= i < |avgs| ==> avgs[i].0 in Grouped(lines) && 1.0 <= avgs[i].1 <= 5.0
  {
    AveragesInRange(lines);
    AverageRatings(Products(lines), Grouped(lines))
  }

  /**
    The products `main` reports: at most three, each a product with a valid
    review, ranked by an average that lies in [1, 5].
   */
  lemma TopRated(lines: seq<string>)
    ensures var top := TopProducts(Averages(lines), DefaultTopN);
      && |top| <= DefaultTopN
      && forall i :: 0 <= i < |top| ==> top[i].0 in Grouped(lines) && 1.0 <= top[i].1 <= 5.0
  {
    var avgs := Averages(lines);
    DrawnInRange(TopProducts(avgs, DefaultTopN), avgs, Grouped(lines));
  }

  /** Items drawn from averages of known products in [1, 5] are such averages too. */
  lemma DrawnInRange(top: seq<(string, real)>, avgs: seq<(string, real)>, grouped: map<string, seq<int>>)
    requires multiset(top) <= multiset(avgs)
    requires forall j :: 0 <= j < |avgs| ==> avgs[j].0 in grouped && 1.0 <= avgs[j].1 <= 5.0
    ensures forall i :: 0 <= i < |top| ==> top[i].0 in grouped && 1.0 <= top[i].1 <= 5.0
  {
    forall i | 0 <= i < |top|
      ensures top[i].0 in grouped && 1.0 <= top[i].1 <= 5.0
    {
      assert top[i] in multiset(avgs);
      var j :| 0 <= j < |avgs| && avgs[j] == top[i];
    }
  }

  /**
    `get_top_products`: the `n` best-rated products, best first; products with
    equal averages stay in their original order, and no product left out has
    a higher average than one kept.
   */
  function TopProducts(avgs: seq<(string, real)>, n: nat): (top: seq<(string, real)>)
    ensures |top| == Ranking.Min(n, |avgs|)
    ensures forall i, j :: 0 <= i < j < |top| ==> top[i].1 >= top[j].1
    ensures multiset(top) <= multiset(avgs)
    ensures forall k :: Ranking.WithKey(AverageOf, k, top) <= Ranking.WithKey(AverageOf, k, avgs)
    ensures forall i, e :: 0 <= i < |top| && e in multiset(avgs) - multiset(top) ==> top[i].1 >= e.1
  {
    var top := Ranking.TopN(AverageOf, true, avgs, n);
    assert forall i, j :: 0 <= i < j < |top| ==> Ranking.InOrder(AverageOf, true, top[i], top[j]);
    top
  }
}
