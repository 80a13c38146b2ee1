/**
 * The optional category and tag lists read from POST_CATEGORIES and POST_TAGS
 * (post.py:215-219): the value is split at commas, each piece stripped, and the
 * pieces that qualify kept in order; an empty value gives no list at all.
 */
module PostEnv {
  import opened Wrappers
  import opened AsciiText

  /** The list comprehension `[f(p) for p in pieces if keep(p)]`. */
  function FilterMap<A, B>(pieces: seq<A>, keep: A -> bool, f: A -> B): (r: seq<B>)
    ensures |r| <= |pieces|
  {
    if pieces == [] then []
    else (if keep(pieces[0]) then [f(pieces[0])] else []) + FilterMap(pieces[1..], keep, f)
  }

  /** Every element of the result is the image of a piece that qualifies. */
  lemma {:induction false} FilterMapFrom<A, B>(pieces: seq<A>, keep: A -> bool, f: A -> B)
    ensures forall y :: y in FilterMap(pieces, keep, f) ==> exists p :: p in pieces && keep(p) && y == f(p)
  {
    if pieces != [] {
      FilterMapFrom(pieces[1..], keep, f);
      forall y | y in FilterMap(pieces, keep, f) ensures exists p :: p in pieces && keep(p) && y == f(p) {
        if y !in FilterMap(pieces[1..], keep, f) {
          assert keep(pieces[0]) && y == f(pieces[0]);
        } else {
          var p :| p in pieces[1..] && keep(p) && y == f(p);
          assert p in pieces;
        }
      }
    }
  }

  /** The comprehension works piece by piece: it keeps the order of its input. */
  lemma {:induction false} FilterMapAppend<A, B>(a: seq<A>, b: seq<A>, keep: A -> bool, f: A -> B)
    ensures FilterMap(a + b, keep, f) == FilterMap(a, keep, f) + FilterMap(b, keep, f)
  {
    if a == [] {
      assert a + b == b;
    } else {
      var head := if keep(a[0]) then [f(a[0])] else [];
      assert (a + b)[0] == a[0];
      assert (a + b)[1..] == a[1..] + b;
      assert FilterMap(a + b, keep, f) == head + FilterMap(a[1..] + b, keep, f);
      FilterMapAppend(a[1..], b, keep, f);
      assert FilterMap(a, keep, f) == head + FilterMap(a[1..], keep, f);
    }
  }

  /** The comprehension gives `[]` exactly when no piece qualifies. */
  lemma {:induction false} FilterMapEmpty<A, B>(pieces: seq<A>, keep: A -> bool, f: A -> B)
    ensures FilterMap(pieces, keep, f) == [] <==> forall p :: p in pieces ==> !keep(p)
  {
    if pieces != [] {
      FilterMapEmpty(pieces[1..], keep, f);
      assert forall p :: p in pieces <==> p == pieces[0] || p in pieces[1..];
    }
  }

  /** When every piece qualifies and is its own image, the comprehension changes nothing. */
  lemma {:induction false} FilterMapKeepsAll<A>(pieces: seq<A>, keep: A -> bool, f: A -> A)
    requires forall p :: p in pieces ==> keep(p) && f(p) == p
    ensures FilterMap(pieces, keep, f) == pieces
  {
    if pieces != [] {
      assert pieces[0] in pieces;
      assert forall p :: p in pieces[1..] ==> p in pieces;
      FilterMapKeepsAll(pieces[1..], keep, f);
      assert pieces == [pieces[0]] + pieces[1..];
    }
  }

  // ---------------------------------------------------------------------------
  // POST_CATEGORIES

  /** `cat.strip().isdigit()` */
  predicate IsIdPiece(p: string) {
    IsDigits(Trim(p))
  }

  /** `int(cat.strip())` */
  function IdOf(p: string): nat {
    DigitsValue(Trim(p))
  }

  /** The category ids: None for an empty value, else the ids of the all-digit pieces, in order. */
  function ParseCategories(env: string): (r: Option<seq<nat>>)
    ensures r.None? <==> env == []
    ensures r.Some? ==> forall id :: id in r.value ==>
      exists p :: p in Split(env, ',') && IsDigits(Trim(p)) && id == DigitsValue(Trim(p))
  {
    if env == [] then None
    else
      FilterMapFrom(Split(env, ','), IsIdPiece, IdOf);
      Some(FilterMap(Split(env, ','), IsIdPiece, IdOf))
  }

  /** A single piece gives its id when it is all digits once stripped, and nothing otherwise. */
  lemma CategoriesOfPiece(p: string)
    requires p != [] && ',' !in p
    ensures ParseCategories(p) == Some(if IsDigits(Trim(p)) then [DigitsValue(Trim(p))] else [])
  {
    SplitNoSeparator(p, ',');
    assert [p][1..] == [];
    var ids: seq<nat> := if IsIdPiece(p) then [IdOf(p)] else [];
    assert FilterMap([p], IsIdPiece, IdOf) == ids + FilterMap([], IsIdPiece, IdOf);
    assert ids + [] == ids;
  }

  /** Joining two values with a comma concatenates their id lists, in order. */
  lemma CategoriesAppend(a: string, b: string)
    requires a != [] && b != []
    ensures ParseCategories(a + [','] + b) == Some(ParseCategories(a).value + ParseCategories(b).value)
  {
    SplitAppend(a, b, ',');
    FilterMapAppend(Split(a, ','), Split(b, ','), IsIdPiece, IdOf);
  }

  /** A non-empty value with no all-digit piece gives an empty list, not None. */
  lemma CategoriesEmptyList(env: string)
    requires env != []
    ensures ParseCategories(env) == Some([]) <==> forall p :: p in Split(env, ',') ==> !IsDigits(Trim(p))
  {
    FilterMapEmpty(Split(env, ','), IsIdPiece, IdOf);
  }

  /** The value `",".join(str(i) for i in ids)`. */
  function IdsValue(ids: seq<nat>): string {
    Join(seq(|ids|, i requires 0 <= i < |ids| => DecimalString(ids[i])), ',')
  }

  lemma {:induction false} IdsOfDecimals(ids: seq<nat>)
    ensures FilterMap(seq(|ids|, i requires 0 <= i < |ids| => DecimalString(ids[i])), IsIdPiece, IdOf) == ids
  {
    if ids != [] {
      var pieces := seq(|ids|, i requires 0 <= i < |ids| => DecimalString(ids[i]));
      assert pieces[1..] == seq(|ids[1..]|, i requires 0 <= i < |ids[1..]| => DecimalString(ids[1..][i]));
      IdsOfDecimals(ids[1..]);
      TrimOfTrimmed(pieces[0]);
      DecimalRoundTrip(ids[0]);
    }
  }

  /** Any non-empty id list written as comma-separated decimals reads back unchanged. */
  lemma CategoriesRoundTrip(ids: seq<nat>)
    requires ids != []
    ensures ParseCategories(IdsValue(ids)) == Some(ids)
  {
    var pieces := seq(|ids|, i requires 0 <= i < |ids| => DecimalString(ids[i]));
    forall p | p in pieces ensures ',' !in p {
      var i :| 0 <= i < |pieces| && pieces[i] == p;
      assert IsDigits(p);
    }
    SplitJoin(pieces, ',');
    assert IdsValue(ids) != [] by {
      if |pieces| > 1 {
        assert IdsValue(ids) == pieces[0] + [','] + Join(pieces[1..], ',');
      }
    }
    IdsOfDecimals(ids);
  }

  // ---------------------------------------------------------------------------
  // POST_TAGS

  /** `tag.strip()` is truthy. */
  predicate IsTagPiece(p: string) {
    Trim(p) != []
  }

  /** The tag names: None for an empty value, else the stripped non-blank pieces, in order. */
  function ParseTags(env: string): (r: Option<seq<string>>)
    ensures r.None? <==> env == []
    ensures r.Some? ==> forall t :: t in r.value ==> t != [] && Trimmed(t) && ',' !in t
  {
    if env == [] then None
    else
      var tags := FilterMap(Split(env, ','), IsTagPiece, Trim);
      FilterMapFrom(Split(env, ','), IsTagPiece, Trim);
      assert forall t :: t in tags ==> ',' !in t by {
        forall t | t in tags ensures ',' !in t {
          var p :| p in Split(env, ',') && IsTagPiece(p) && t == Trim(p);
          TrimKeepsOut(p, ',');
        }
      }
      Some(tags)
  }

  /** A single piece gives its stripped text when that is not blank, and nothing otherwise. */
  lemma TagsOfPiece(p: string)
    requires p != [] && ',' !in p
    ensures ParseTags(p) == Some(if Trim(p) != [] then [Trim(p)] else [])
  {
    SplitNoSeparator(p, ',');
    assert [p][1..] == [];
    var tags: seq<string> := if IsTagPiece(p) then [Trim(p)] else [];
    assert FilterMap([p], IsTagPiece, Trim) == tags + FilterMap([], IsTagPiece, Trim);
    assert tags + [] == tags;
  }

  /** Joining two values with a comma concatenates their tag lists, in order. */
  lemma TagsAppend(a: string, b: string)
    requires a != [] && b != []
    ensures ParseTags(a + [','] + b) == Some(ParseTags(a).value + ParseTags(b).value)
  {
    SplitAppend(a, b, ',');
    FilterMapAppend(Split(a, ','), Split(b, ','), IsTagPiece, Trim);
  }

  /** A value whose every piece is blank gives an empty list, not None. */
  lemma TagsEmptyList(env: string)
    requires env != []
    ensures ParseTags(env) == Some([]) <==> forall p :: p in Split(env, ',') ==> Trim(p) == []
  {
    FilterMapEmpty(Split(env, ','), IsTagPiece, Trim);
  }

  lemma TagsOfTrimmed(tags: seq<string>)
    requires forall t :: t in tags ==> t != [] && Trimmed(t)
    ensures FilterMap(tags, IsTagPiece, Trim) == tags
  {
    forall t | t in tags ensures IsTagPiece(t) && Trim(t) == t {
      TrimOfTrimmed(t);
    }
    FilterMapKeepsAll(tags, IsTagPiece, Trim);
  }

  /** Non-blank, stripped, comma-free tags joined with commas read back unchanged. */
  lemma TagsRoundTrip(tags: seq<string>)
    requires tags != []
    requires forall t :: t in tags ==> t != [] && Trimmed(t) && ',' !in t
    ensures ParseTags(Join(tags, ',')) == Some(tags)
  {
    SplitJoin(tags, ',');
    assert Join(tags, ',') != [] by {
      assert tags[0] in tags;
      if |tags| > 1 {
        assert Join(tags, ',') == tags[0] + [','] + Join(tags[1..], ',');
      }
    }
    TagsOfTrimmed(tags);
  }
}
