/**
 * The reconciliation of a product's stored URL rewrites with the ones the
 * import computed: the match decision for one candidate (create, leave the
 * manual row alone, or merge onto the autogenerated row), the matching phase
 * over all candidates, and the 301 redirect each stale autogenerated row
 * becomes.
 */
module Reconciliation {
  import opened PhpValues
  import opened MemberNames
  import opened RewriteIndex

  /**
   * What the observer takes from its parent class, its subject and PHP:
   * each is an uninterpreted function, fixed for the product being imported.
   */
  datatype Collaborators = Collaborators(
    /** getRootCategory() */
    rootCategory: Row,
    /** getCategory($categoryId), from the subject's category cache */
    getCategory: int -> Row,
    /** prepareRequestPath($category): the product's request path in a category */
    prepareRequestPath: Row -> string,
    /** prepareMetadata($category) */
    prepareMetadata: Row -> Row,
    /** serialize() of a metadata array */
    serialize: Row -> string,
    /** unserialize(); None stands for PHP's false on a malformed blob */
    unserialize: string -> Option<Row>,
    /** loadUrlRewriteProductCategory($productId, $categoryId); None stands for false */
    loadUrlRewriteProductCategory: (Value, Value) -> Option<Row>
  )

  /** The row was created manually: its is_autogenerated flag casts to 0. */
  predicate IsManual(row: Row)
  {
    IntCast(Field(row, IS_AUTOGENERATED)) == 0
  }

  /** The row already is a redirect: its redirect_type casts to something other than 0. */
  predicate IsRedirect(row: Row)
  {
    IntCast(Field(row, REDIRECT_TYPE)) != 0
  }

  /**
   * The flags read the same whether a row holds them as integers or as the
   * decimal strings storage returns: manual exactly when is_autogenerated is
   * 0, a redirect exactly when redirect_type is not 0.
   */
  lemma FlagsRead(row: Row, a: int, t: int)
    requires Field(row, IS_AUTOGENERATED) == Int(a) || Field(row, IS_AUTOGENERATED) == Str(IntToString(a))
    requires Field(row, REDIRECT_TYPE) == Int(t) || Field(row, REDIRECT_TYPE) == Str(IntToString(t))
    ensures IsManual(row) <==> a == 0
    ensures IsRedirect(row) <==> t != 0
    ensures NeedsRedirect(row) <==> a != 0 && t == 0
  {
    IntCastOfIntToString(a);
    IntCastOfIntToString(t);
  }

  /**
   * A missing flag casts to 0: a row without is_autogenerated counts as
   * manual, one without redirect_type as no redirect.
   */
  lemma MissingFlagsRead(row: Row)
    ensures IS_AUTOGENERATED !in row ==> IsManual(row)
    ensures REDIRECT_TYPE !in row ==> !IsRedirect(row)
  {
  }

  /** A stale row the leftover phase turns into a redirect. */
  predicate NeedsRedirect(row: Row)
  {
    !IsManual(row) && !IsRedirect(row)
  }

  /** A stale entry the leftover phase turns into a redirect. */
  ghost predicate Pending(idx: Index, s: int, p: string)
  {
    HasEntry(idx, s, p) && NeedsRedirect(idx[s][p])
  }

  // ---------------------------------------------------------------------
  // Metadata

  /**
   * The metadata stored in a row, unserialized. An absent metadata cell
   * gives the empty array, and so does a blob unserialize rejects (PHP then
   * writes into false, which becomes an empty array).
   */
  function DecodeMetadata(env: Collaborators, row: Row): Row
  {
    if IsSet(row, METADATA) then
      match env.unserialize(ToStr(row[METADATA]))
      case Some(m) => m
      case None => map[]
    else map[]
  }

  /**
   * getMetadata: the decoded metadata, which always has a category_id. A
   * category id that is set is kept; otherwise the root category's id is put
   * in and every other decoded key is kept.
   */
  function GetMetadata(env: Collaborators, row: Row): (m: Row)
    ensures CATEGORY_ID in m
    ensures m.Keys == DecodeMetadata(env, row).Keys + {CATEGORY_ID}
    ensures forall k | k in DecodeMetadata(env, row) && k != CATEGORY_ID :: m[k] == DecodeMetadata(env, row)[k]
    ensures IsSet(DecodeMetadata(env, row), CATEGORY_ID) ==> m == DecodeMetadata(env, row)
    ensures !IsSet(DecodeMetadata(env, row), CATEGORY_ID) ==> m[CATEGORY_ID] == Field(env.rootCategory, ENTITY_ID)
  {
    var metadata := DecodeMetadata(env, row);
    if IsSet(metadata, CATEGORY_ID) then metadata
    else metadata[CATEGORY_ID := Field(env.rootCategory, ENTITY_ID)]
  }

  /** When the root category's id is not null, the category id of the resolved metadata is set. */
  lemma GetMetadataResolves(env: Collaborators, row: Row)
    requires Field(env.rootCategory, ENTITY_ID) != Null
    ensures IsSet(GetMetadata(env, row), CATEGORY_ID)
  {
  }

  /**
   * A row's metadata reads back what was serialized into it, when
   * unserialize inverts serialize on it; a row without metadata reads as the
   * empty array.
   */
  lemma DecodeMetadataReadsBack(env: Collaborators, row: Row, m: Row)
    ensures IsSet(row, METADATA) && row[METADATA] == Str(env.serialize(m)) && env.unserialize(env.serialize(m)) == Some(m) ==>
      DecodeMetadata(env, row) == m
    ensures !IsSet(row, METADATA) ==> DecodeMetadata(env, row) == map[]
  {
  }

  // ---------------------------------------------------------------------
  // Redirects for stale rows

  /**
   * The category a stale row redirects into: the category its metadata names
   * when the import computed a rewrite for that category id, the root
   * category otherwise.
   */
  function TargetCategory(env: Collaborators, urlRewrites: map<int, Row>, row: Row): Row
  {
    var categoryId := ArrayKeyInt(GetMetadata(env, row)[CATEGORY_ID]);
    if categoryId.Some? && categoryId.value in urlRewrites then env.getCategory(categoryId.value)
    else env.rootCategory
  }

  /**
   * A category id stored in the metadata as an integer, or as its decimal
   * string, selects that category exactly when the import computed a
   * rewrite for it; the root category is the target otherwise.
   */
  lemma TargetCategoryOfStoredId(env: Collaborators, urlRewrites: map<int, Row>, row: Row, c: int)
    requires var stored := DecodeMetadata(env, row);
      CATEGORY_ID in stored && (stored[CATEGORY_ID] == Int(c) || stored[CATEGORY_ID] == Str(IntToString(c)))
    ensures TargetCategory(env, urlRewrites, row) == if c in urlRewrites then env.getCategory(c) else env.rootCategory
  {
    ArrayKeyIntOfDecimal(c);
  }

  /** The four fields a redirect overrides. */
  const REDIRECT_FIELDS: set<string> := {IS_AUTOGENERATED, REDIRECT_TYPE, METADATA, TARGET_PATH}

  /** The 301 configuration for a category. */
  function RedirectOverride(env: Collaborators, category: Row): (attr: Row)
    ensures attr.Keys == REDIRECT_FIELDS
  {
    map[IS_AUTOGENERATED := Int(0),
        REDIRECT_TYPE := Int(PERMANENT_REDIRECT),
        METADATA := Str(env.serialize(env.prepareMetadata(category))),
        TARGET_PATH := Str(env.prepareRequestPath(category))]
  }

  /**
   * The redirect a stale row becomes: the row itself, same primary key,
   * store and request path, with only the four redirect fields replaced. It
   * is flagged manual and is a redirect, so no later run redirects it again.
   */
  function Redirect(env: Collaborators, urlRewrites: map<int, Row>, row: Row): (r: Row)
    ensures FiledAt(r, StoreOf(row), PathOf(row))
    ensures IsManual(r) && IsRedirect(r)
  {
    ArrayMerge(row, RedirectOverride(env, TargetCategory(env, urlRewrites, row)))
  }

  /**
   * A redirect replaces the four redirect fields of the stale row and keeps
   * every other field, its primary key, store id and request path among them.
   */
  lemma RedirectFields(env: Collaborators, urlRewrites: map<int, Row>, row: Row)
    ensures var r := Redirect(env, urlRewrites, row);
      && r.Keys == row.Keys + REDIRECT_FIELDS
      && (forall k | k in row && k !in REDIRECT_FIELDS :: r[k] == row[k])
      && Field(r, URL_REWRITE_ID) == Field(row, URL_REWRITE_ID)
      && Field(r, STORE_ID) == Field(row, STORE_ID) && Field(r, REQUEST_PATH) == Field(row, REQUEST_PATH)
      && r[IS_AUTOGENERATED] == Int(0) && r[REDIRECT_TYPE] == Int(PERMANENT_REDIRECT)
      && var category := TargetCategory(env, urlRewrites, row);
         r[TARGET_PATH] == Str(env.prepareRequestPath(category)) &&
         r[METADATA] == Str(env.serialize(env.prepareMetadata(category)))
  {
  }

  /**
   * Where a redirect points, in terms of the row's stored metadata: the
   * named category when the import re-pathed it, the root category when it
   * did not, and the root category's id standing in when no id is stored.
   */
  lemma RedirectTarget(env: Collaborators, urlRewrites: map<int, Row>, row: Row)
    ensures var stored := DecodeMetadata(env, row);
      var named := if IsSet(stored, CATEGORY_ID) then stored[CATEGORY_ID] else Field(env.rootCategory, ENTITY_ID);
      var category := if ArrayKeyInt(named).Some? && ArrayKeyInt(named).value in urlRewrites
                      then env.getCategory(ArrayKeyInt(named).value) else env.rootCategory;
      Redirect(env, urlRewrites, row)[TARGET_PATH] == Str(env.prepareRequestPath(category))
  {
  }

  /**
   * When serialize and unserialize agree on the category's metadata and it
   * names a category, reading the metadata of the redirect gives back
   * exactly that metadata.
   */
  lemma RedirectMetadataReadsBack(env: Collaborators, urlRewrites: map<int, Row>, row: Row)
    requires var m := env.prepareMetadata(TargetCategory(env, urlRewrites, row));
      env.unserialize(env.serialize(m)) == Some(m) && IsSet(m, CATEGORY_ID)
    ensures GetMetadata(env, Redirect(env, urlRewrites, row)) == env.prepareMetadata(TargetCategory(env, urlRewrites, row))
  {
    var r := Redirect(env, urlRewrites, row);
    assert IsSet(r, METADATA);
  }

  // ---------------------------------------------------------------------
  // Matching one candidate

  /** What initializeUrlRewrite leaves: the index and the row to persist (None for false). */
  datatype Matched = Matched(rest: Index, emit: Option<Row>)

  /**
   * The emitted row comes from the candidate: it is the candidate, or the
   * candidate merged onto an autogenerated entry of `idx`.
   */
  ghost predicate FromCandidate(idx: Index, attr: Row, r: Row)
  {
    r == attr || exists s, p | HasEntry(idx, s, p) :: !IsManual(idx[s][p]) && r == ArrayMerge(idx[s][p], attr)
  }

  /**
   * initializeUrlRewrite: looks the candidate up by its store id and request
   * path. An entry found there is claimed (removed); a manual one suppresses
   * the candidate, an autogenerated one has the candidate merged onto it.
   * With no entry the candidate is returned as it is. An empty array found
   * in the index is falsy in PHP and counts as no entry.
   */
  function Match(idx: Index, attr: Row): (m: Matched)
    ensures SubIndex(m.rest, idx) && m.rest.Keys == idx.Keys
    ensures WellFormed(idx) ==> WellFormed(m.rest)
    ensures m.emit.Some? ==> FromCandidate(idx, attr, m.emit.value)
  {
    var found := Lookup(idx, Field(attr, STORE_ID), Field(attr, REQUEST_PATH));
    if found.Some? && found.value != map[] then
      var rest := Remove(idx, found.value);
      if IsManual(found.value) then Matched(rest, None)
      else Matched(rest, Some(ArrayMerge(found.value, attr)))
    else
      Matched(idx, Some(attr))
  }

  /** A candidate without an entry at its position is created as it is; the index is untouched. */
  lemma MatchWithoutEntry(idx: Index, attr: Row)
    requires Lookup(idx, Field(attr, STORE_ID), Field(attr, REQUEST_PATH)).None?
    ensures Match(idx, attr) == Matched(idx, Some(attr))
  {
  }

  /**
   * A candidate with an entry at its position (s, p) removes exactly that
   * entry. A manual entry suppresses the candidate; an autogenerated one is
   * updated, the candidate's fields winning and the fields only the stored
   * row has (its primary key among them) kept.
   */
  lemma MatchClaimsEntry(idx: Index, attr: Row, s: int, p: string)
    requires WellFormed(idx)
    requires ArrayKeyInt(Field(attr, STORE_ID)) == Some(s) && ToStr(Field(attr, REQUEST_PATH)) == p
    requires HasEntry(idx, s, p) && idx[s][p] != map[]
    ensures var m := Match(idx, attr);
      && !HasEntry(m.rest, s, p)
      && (forall s', p' | !(s' == s && p' == p) :: At(m.rest, s', p') == At(idx, s', p'))
      && (m.emit.None? <==> IsManual(idx[s][p]))
    ensures var m := Match(idx, attr); var row := idx[s][p];
      m.emit.Some? ==>
        && m.emit.value.Keys == row.Keys + attr.Keys
        && (forall k | k in attr :: m.emit.value[k] == attr[k])
        && (forall k | k in row && k !in attr :: m.emit.value[k] == row[k])
        && (URL_REWRITE_ID !in attr ==> Field(m.emit.value, URL_REWRITE_ID) == Field(row, URL_REWRITE_ID))
  {
  }

  // ---------------------------------------------------------------------
  // The matching phase

  datatype Batch = Batch(rest: Index, emitted: seq<Row>)

  /**
   * The matching phase: each candidate in turn is matched against what the
   * earlier ones left, and every row initializeUrlRewrite returns is emitted.
   */
  function MatchAll(idx: Index, candidates: seq<Row>): (b: Batch)
    ensures SubIndex(b.rest, idx) && b.rest.Keys == idx.Keys
    ensures WellFormed(idx) ==> WellFormed(b.rest)
    ensures |b.emitted| <= |candidates|
  {
    if candidates == [] then Batch(idx, [])
    else
      var b := MatchAll(idx, candidates[..|candidates| - 1]);
      var m := Match(b.rest, candidates[|candidates| - 1]);
      Batch(m.rest, b.emitted + (if m.emit.Some? then [m.emit.value] else []))
  }

  /** Matching one more candidate after a prefix of them. */
  lemma MatchAllStep(idx: Index, candidates: seq<Row>, i: nat)
    requires i < |candidates|
    ensures var b := MatchAll(idx, candidates[..i]); var m := Match(b.rest, candidates[i]);
      MatchAll(idx, candidates[..i + 1]) == Batch(m.rest, b.emitted + (if m.emit.Some? then [m.emit.value] else []))
  {
    assert candidates[..i + 1][..i] == candidates[..i];
  }

  /** The candidate's lookup reaches position (s, p): its store id is the integer key s and its request path p. */
  predicate Claims(attr: Row, s: int, p: string)
  {
    ArrayKeyInt(Field(attr, STORE_ID)) == Some(s) && ToStr(Field(attr, REQUEST_PATH)) == p
  }

  /**
   * One match leaves every position its candidate does not reach as it was,
   * and a stale entry survives it exactly when the candidate does not reach
   * its position.
   */
  lemma MatchStepPending(idx: Index, attr: Row, s: int, p: string)
    requires WellFormed(idx)
    ensures !Claims(attr, s, p) ==> At(Match(idx, attr).rest, s, p) == At(idx, s, p)
    ensures Pending(Match(idx, attr).rest, s, p) <==> Pending(idx, s, p) && !Claims(attr, s, p)
  {
    var found := Lookup(idx, Field(attr, STORE_ID), Field(attr, REQUEST_PATH));
    if found.Some? && found.value != map[] {
      var k := ArrayKeyInt(Field(attr, STORE_ID)).value;
      var q := ToStr(Field(attr, REQUEST_PATH));
      assert FiledAt(found.value, k, q);
    } else if Claims(attr, s, p) && found.Some? {
      assert IsManual(idx[s][p]);
    }
  }

  /** No candidate's lookup reaches position (s, p). */
  predicate Unclaimed(candidates: seq<Row>, s: int, p: string)
  {
    forall j | 0 <= j < |candidates| :: !Claims(candidates[j], s, p)
  }

  lemma UnclaimedSnoc(candidates: seq<Row>, s: int, p: string)
    requires candidates != []
    ensures var n := |candidates| - 1;
      Unclaimed(candidates, s, p) <==> Unclaimed(candidates[..n], s, p) && !Claims(candidates[n], s, p)
  {
    var n := |candidates| - 1;
    assert forall j | 0 <= j < n :: candidates[..n][j] == candidates[j];
  }

  /**
   * The matching phase leaves every position no candidate reaches as it was,
   * and a stale entry survives it exactly when no candidate reaches its
   * position.
   */
  lemma {:induction false} MatchAllKeepsUnclaimed(idx: Index, candidates: seq<Row>, s: int, p: string)
    requires WellFormed(idx)
    ensures Unclaimed(candidates, s, p) ==> At(MatchAll(idx, candidates).rest, s, p) == At(idx, s, p)
    ensures Pending(MatchAll(idx, candidates).rest, s, p) <==> Pending(idx, s, p) && Unclaimed(candidates, s, p)
  {
    if candidates != [] {
      var n := |candidates| - 1;
      MatchAllKeepsUnclaimed(idx, candidates[..n], s, p);
      UnclaimedSnoc(candidates, s, p);
      MatchStepPending(MatchAll(idx, candidates[..n]).rest, candidates[n], s, p);
    }
  }

  lemma FromCandidateWidens(a: Index, b: Index, attr: Row, r: Row)
    requires SubIndex(a, b) && FromCandidate(a, attr, r)
    ensures FromCandidate(b, attr, r)
  {
    if r != attr {
      var s, p :| HasEntry(a, s, p) && !IsManual(a[s][p]) && r == ArrayMerge(a[s][p], attr);
      assert HasEntry(b, s, p);
    }
  }

  /** The row comes from one of the candidates, against `idx`. */
  ghost predicate FromSomeCandidate(idx: Index, candidates: seq<Row>, r: Row)
  {
    exists c | c in candidates :: FromCandidate(idx, c, r)
  }

  /** Every row of `out` comes from one of the candidates, against `idx`. */
  ghost predicate AllFromCandidates(idx: Index, candidates: seq<Row>, out: seq<Row>)
  {
    forall i | 0 <= i < |out| :: FromSomeCandidate(idx, candidates, out[i])
  }

  /**
   * Every row the matching phase emits is a candidate, or a candidate merged
   * onto an autogenerated stored row: no manual row is ever updated.
   */
  lemma {:induction false} MatchAllOrigins(idx: Index, candidates: seq<Row>)
    ensures AllFromCandidates(idx, candidates, MatchAll(idx, candidates).emitted)
  {
    if candidates != [] {
      var n := |candidates| - 1;
      MatchAllOrigins(idx, candidates[..n]);
      var b := MatchAll(idx, candidates[..n]);
      var m := Match(b.rest, candidates[n]);
      AllFromCandidatesPrefix(idx, candidates, n, b.emitted);
      if m.emit.Some? {
        FromCandidateWidens(b.rest, idx, candidates[n], m.emit.value);
        AllFromCandidatesSnoc(idx, candidates, b.emitted, m.emit.value, candidates[n]);
      }
    }
  }

  lemma AllFromCandidatesPrefix(idx: Index, candidates: seq<Row>, n: nat, out: seq<Row>)
    requires n <= |candidates| && AllFromCandidates(idx, candidates[..n], out)
    ensures AllFromCandidates(idx, candidates, out)
  {
    forall i | 0 <= i < |out| ensures FromSomeCandidate(idx, candidates, out[i]) {
      assert FromSomeCandidate(idx, candidates[..n], out[i]);
      var c :| c in candidates[..n] && FromCandidate(idx, c, out[i]);
      assert c in candidates;
    }
  }

  lemma AllFromCandidatesSnoc(idx: Index, candidates: seq<Row>, out: seq<Row>, r: Row, c: Row)
    requires AllFromCandidates(idx, candidates, out)
    requires c in candidates && FromCandidate(idx, c, r)
    ensures AllFromCandidates(idx, candidates, out + [r])
  {
    forall i | 0 <= i < |out + [r]| ensures FromSomeCandidate(idx, candidates, (out + [r])[i]) {
      if i < |out| {
        assert (out + [r])[i] == out[i];
      } else {
        assert (out + [r])[i] == r;
      }
    }
  }

  /**
   * A matched candidate leaves no stale entry at the position of the row it
   * emits: the entry there was claimed, or there was none, or it is manual.
   */
  lemma MatchLeavesNoPendingAtEmit(idx: Index, attr: Row)
    requires WellFormed(idx)
    requires ArrayKeyInt(Field(attr, STORE_ID)).Some?
    ensures var m := Match(idx, attr);
      m.emit.Some? ==> !Pending(m.rest, StoreOf(m.emit.value), PathOf(m.emit.value))
  {
    var s := ArrayKeyInt(Field(attr, STORE_ID)).value;
    var p := ToStr(Field(attr, REQUEST_PATH));
    var found := Lookup(idx, Field(attr, STORE_ID), Field(attr, REQUEST_PATH));
    var m := Match(idx, attr);
    if found.Some? && found.value != map[] {
      var row := found.value;
      assert FiledAt(row, s, p);
      if m.emit.Some? {
        var r := m.emit.value;
        assert r == ArrayMerge(row, attr);
        assert STORE_ID in attr;
        assert StoreOf(r) == s;
        if REQUEST_PATH in attr {
          assert PathOf(r) == p;
        } else {
          assert Field(r, REQUEST_PATH) == Field(row, REQUEST_PATH);
        }
      }
    } else if found.Some? {
      assert IsManual(found.value);
    }
  }

  /** No row of `out` sits at the position of a stale entry of `idx`. */
  ghost predicate NonePendingAt(idx: Index, out: seq<Row>)
  {
    forall i | 0 <= i < |out| :: !Pending(idx, StoreOf(out[i]), PathOf(out[i]))
  }

  lemma NonePendingAtShrinks(a: Index, b: Index, out: seq<Row>)
    requires SubIndex(a, b) && NonePendingAt(b, out)
    ensures NonePendingAt(a, out)
  {
    forall i | 0 <= i < |out| ensures !Pending(a, StoreOf(out[i]), PathOf(out[i])) {
      assert !Pending(b, StoreOf(out[i]), PathOf(out[i]));
    }
  }

  /**
   * When every candidate's store id is an integer key, no row the matching
   * phase emits sits at the position of an entry still stale afterwards.
   */
  lemma {:induction false} MatchAllLeavesNoPendingAtEmitted(idx: Index, candidates: seq<Row>)
    requires WellFormed(idx)
    requires forall j | 0 <= j < |candidates| :: ArrayKeyInt(Field(candidates[j], STORE_ID)).Some?
    ensures NonePendingAt(MatchAll(idx, candidates).rest, MatchAll(idx, candidates).emitted)
  {
    if candidates != [] {
      var n := |candidates| - 1;
      var init := candidates[..n];
      forall j | 0 <= j < |init| ensures ArrayKeyInt(Field(init[j], STORE_ID)).Some? {
        assert init[j] == candidates[j];
      }
      MatchAllLeavesNoPendingAtEmitted(idx, init);
      var b := MatchAll(idx, init);
      var m := Match(b.rest, candidates[n]);
      assert WellFormed(b.rest);
      MatchLeavesNoPendingAtEmit(b.rest, candidates[n]);
      NonePendingAtShrinks(m.rest, b.rest, b.emitted);
      var tail := if m.emit.Some? then [m.emit.value] else [];
      assert NonePendingAt(m.rest, tail);
      NonePendingAtAppend(m.rest, b.emitted, tail);
    }
  }

  lemma NonePendingAtAppend(idx: Index, a: seq<Row>, b: seq<Row>)
    requires NonePendingAt(idx, a) && NonePendingAt(idx, b)
    ensures NonePendingAt(idx, a + b)
  {
    forall i | 0 <= i < |a + b| ensures !Pending(idx, StoreOf((a + b)[i]), PathOf((a + b)[i])) {
      if i < |a| {
        assert (a + b)[i] == a[i];
      } else {
        assert (a + b)[i] == b[i - |a|];
      }
    }
  }

  // ---------------------------------------------------------------------
  // The leftover phase

  /**
   * `out` is what the leftover phase persists for the index `idx`: one
   * redirect for each stale entry (autogenerated, not a redirect) and
   * nothing for any other entry, no two at the same position.
   */
  ghost predicate RedirectsExactly(env: Collaborators, urlRewrites: map<int, Row>, idx: Index, out: seq<Row>)
  {
    && (forall i | 0 <= i < |out| ::
          Pending(idx, StoreOf(out[i]), PathOf(out[i])) &&
          out[i] == Redirect(env, urlRewrites, idx[StoreOf(out[i])][PathOf(out[i])]))
    && (forall i, j | 0 <= i < j < |out| :: !FiledAt(out[j], StoreOf(out[i]), PathOf(out[i])))
    && (forall s, p | Pending(idx, s, p) :: Redirect(env, urlRewrites, idx[s][p]) in out)
  }

  /**
   * The leftover phase part way: `out` holds one redirect for each stale
   * entry whose position is in `done`, and nothing else.
   */
  ghost predicate RedirectsSoFar(env: Collaborators, urlRewrites: map<int, Row>, idx: Index, out: seq<Row>, done: set<(int, string)>)
  {
    && (forall i | 0 <= i < |out| ::
          Pending(idx, StoreOf(out[i]), PathOf(out[i])) &&
          (StoreOf(out[i]), PathOf(out[i])) in done &&
          out[i] == Redirect(env, urlRewrites, idx[StoreOf(out[i])][PathOf(out[i])]))
    && (forall i, j | 0 <= i < j < |out| :: !FiledAt(out[j], StoreOf(out[i]), PathOf(out[i])))
    && (forall s, p | Pending(idx, s, p) && (s, p) in done :: Redirect(env, urlRewrites, idx[s][p]) in out)
  }

  /** Passing over an entry that is not stale. */
  lemma RedirectsSoFarSkip(env: Collaborators, urlRewrites: map<int, Row>, idx: Index, out: seq<Row>,
                           done: set<(int, string)>, s: int, p: string)
    requires RedirectsSoFar(env, urlRewrites, idx, out, done) && !Pending(idx, s, p)
    ensures RedirectsSoFar(env, urlRewrites, idx, out, done + {(s, p)})
  {
  }

  /** Redirecting a stale entry not visited before. */
  lemma RedirectsSoFarAppend(env: Collaborators, urlRewrites: map<int, Row>, idx: Index, out: seq<Row>,
                             done: set<(int, string)>, s: int, p: string)
    requires WellFormed(idx)
    requires RedirectsSoFar(env, urlRewrites, idx, out, done) && Pending(idx, s, p) && (s, p) !in done
    ensures RedirectsSoFar(env, urlRewrites, idx, out + [Redirect(env, urlRewrites, idx[s][p])], done + {(s, p)})
  {
    var r := Redirect(env, urlRewrites, idx[s][p]);
    var out' := out + [r];
    assert FiledAt(r, s, p);
    forall i | 0 <= i < |out'|
      ensures Pending(idx, StoreOf(out'[i]), PathOf(out'[i])) &&
              (StoreOf(out'[i]), PathOf(out'[i])) in done + {(s, p)} &&
              out'[i] == Redirect(env, urlRewrites, idx[StoreOf(out'[i])][PathOf(out'[i])])
    {
      if i < |out| {
        assert out'[i] == out[i];
      }
    }
    forall i, j | 0 <= i < j < |out'| ensures !FiledAt(out'[j], StoreOf(out'[i]), PathOf(out'[i])) {
      assert out'[i] == out[i];
      if j < |out| {
        assert out'[j] == out[j];
      } else {
        assert (StoreOf(out[i]), PathOf(out[i])) in done;
      }
    }
  }

  /** Once every entry has been visited, the leftover phase is complete. */
  lemma RedirectsSoFarComplete(env: Collaborators, urlRewrites: map<int, Row>, idx: Index, out: seq<Row>, done: set<(int, string)>)
    requires RedirectsSoFar(env, urlRewrites, idx, out, done)
    requires forall s, p | HasEntry(idx, s, p) :: (s, p) in done
    ensures RedirectsExactly(env, urlRewrites, idx, out)
  {
  }

  /** Each stale entry is redirected exactly once: one row is at its position, and that row is its redirect. */
  lemma RedirectsOnePerEntry(env: Collaborators, urlRewrites: map<int, Row>, idx: Index, out: seq<Row>, s: int, p: string)
    requires WellFormed(idx) && RedirectsExactly(env, urlRewrites, idx, out)
    requires Pending(idx, s, p)
    ensures exists i | 0 <= i < |out| ::
              out[i] == Redirect(env, urlRewrites, idx[s][p]) &&
              forall j | 0 <= j < |out| && j != i :: !FiledAt(out[j], s, p)
  {
    var i :| 0 <= i < |out| && out[i] == Redirect(env, urlRewrites, idx[s][p]);
    assert FiledAt(out[i], s, p);
    forall j | 0 <= j < |out| && j != i ensures !FiledAt(out[j], s, p) {
      if j < i {
        assert !FiledAt(out[i], StoreOf(out[j]), PathOf(out[j]));
      }
    }
  }

  /** No manual entry and no entry that already is a redirect has a row persisted at its position. */
  lemma RedirectsSkipSettled(env: Collaborators, urlRewrites: map<int, Row>, idx: Index, out: seq<Row>, s: int, p: string)
    requires RedirectsExactly(env, urlRewrites, idx, out)
    requires HasEntry(idx, s, p) && !NeedsRedirect(idx[s][p])
    ensures forall i | 0 <= i < |out| :: !FiledAt(out[i], s, p)
  {
    forall i | 0 <= i < |out| ensures !FiledAt(out[i], s, p) {
      RedirectIsPending(env, urlRewrites, idx, out, i);
    }
  }

  /**
   * What the leftover phase persists is determined up to order: two
   * sequences that both meet RedirectsExactly hold the same rows.
   */
  lemma RedirectsExactlyDetermined(env: Collaborators, urlRewrites: map<int, Row>, idx: Index, a: seq<Row>, b: seq<Row>)
    requires RedirectsExactly(env, urlRewrites, idx, a) && RedirectsExactly(env, urlRewrites, idx, b)
    ensures forall r :: r in a <==> r in b
  {
    forall r | r in a ensures r in b {
      var i :| 0 <= i < |a| && a[i] == r;
      RedirectIsPending(env, urlRewrites, idx, a, i);
    }
    forall r | r in b ensures r in a {
      var i :| 0 <= i < |b| && b[i] == r;
      RedirectIsPending(env, urlRewrites, idx, b, i);
    }
  }

  /**
   * The leftover phase is idempotent: over entries that are all manual or
   * redirects, as the ones it writes are, it persists nothing.
   */
  lemma SecondSweepPersistsNothing(env: Collaborators, urlRewrites: map<int, Row>, idx: Index, out: seq<Row>)
    requires RedirectsExactly(env, urlRewrites, idx, out)
    requires forall s, p | HasEntry(idx, s, p) :: !NeedsRedirect(idx[s][p])
    ensures out == []
  {
    if out != [] {
      RedirectIsPending(env, urlRewrites, idx, out, 0);
    }
  }

  lemma RedirectIsPending(env: Collaborators, urlRewrites: map<int, Row>, idx: Index, out: seq<Row>, i: nat)
    requires RedirectsExactly(env, urlRewrites, idx, out) && i < |out|
    ensures Pending(idx, StoreOf(out[i]), PathOf(out[i]))
  {
  }

  // ---------------------------------------------------------------------
  // A whole run

  /**
   * Over one product's run (the index built from the stored rows, the
   * matching phase, the leftover phase): every persisted row is a candidate,
   * a candidate merged onto an autogenerated stored row, or the redirect of
   * a stored row that was autogenerated and not a redirect. A manual row is
   * never written and no redirect is redirected again.
   */
  lemma RunLeavesManualRowsAlone(env: Collaborators, urlRewrites: map<int, Row>, stored: seq<Row>,
                                 candidates: seq<Row>, redirects: seq<Row>)
    requires RedirectsExactly(env, urlRewrites, MatchAll(BuildIndex(stored), candidates).rest, redirects)
    ensures var idx := BuildIndex(stored); var b := MatchAll(idx, candidates);
      && AllFromCandidates(idx, candidates, b.emitted)
      && (forall i | 0 <= i < |redirects| ::
            Pending(idx, StoreOf(redirects[i]), PathOf(redirects[i])) &&
            redirects[i] == Redirect(env, urlRewrites, idx[StoreOf(redirects[i])][PathOf(redirects[i])]))
  {
    var idx := BuildIndex(stored);
    MatchAllOrigins(idx, candidates);
  }

  /**
   * Over one product's run, when the candidates' store ids are integer keys,
   * no redirect is persisted at the position of a row the matching phase
   * persisted: the emitted sequence never targets one store and request path
   * twice through a create or update and a redirect.
   */
  lemma RunNeverRedirectsOverAMatch(env: Collaborators, urlRewrites: map<int, Row>, stored: seq<Row>,
                                    candidates: seq<Row>, redirects: seq<Row>)
    requires forall j | 0 <= j < |candidates| :: ArrayKeyInt(Field(candidates[j], STORE_ID)).Some?
    requires RedirectsExactly(env, urlRewrites, MatchAll(BuildIndex(stored), candidates).rest, redirects)
    ensures var b := MatchAll(BuildIndex(stored), candidates);
      forall i, j | 0 <= i < |b.emitted| && 0 <= j < |redirects| ::
        !FiledAt(redirects[j], StoreOf(b.emitted[i]), PathOf(b.emitted[i]))
  {
    var b := MatchAll(BuildIndex(stored), candidates);
    MatchAllLeavesNoPendingAtEmitted(BuildIndex(stored), candidates);
    forall i, j | 0 <= i < |b.emitted| && 0 <= j < |redirects|
      ensures !FiledAt(redirects[j], StoreOf(b.emitted[i]), PathOf(b.emitted[i]))
    {
      assert !Pending(b.rest, StoreOf(b.emitted[i]), PathOf(b.emitted[i]));
    }
  }

  /**
   * A stale entry of the index before the matching phase that no candidate
   * reaches is redirected by the leftover phase.
   */
  lemma RedirectsEveryUnclaimed(env: Collaborators, urlRewrites: map<int, Row>, idx: Index,
                                candidates: seq<Row>, redirects: seq<Row>, s: int, p: string)
    requires WellFormed(idx)
    requires RedirectsExactly(env, urlRewrites, MatchAll(idx, candidates).rest, redirects)
    requires Pending(idx, s, p) && Unclaimed(candidates, s, p)
    ensures Redirect(env, urlRewrites, idx[s][p]) in redirects
  {
    MatchAllKeepsUnclaimed(idx, candidates, s, p);
    assert MatchAll(idx, candidates).rest[s][p] == idx[s][p];
  }

  /**
   * Over one product's run, every stored row that stayed in the index (no
   * later stored row at its store id and request path), that is
   * autogenerated and not a redirect, and whose position no candidate
   * reaches, has its redirect persisted: every stale path becomes a 301.
   */
  lemma RunRedirectsEveryUnclaimedStaleRow(env: Collaborators, urlRewrites: map<int, Row>, stored: seq<Row>,
                                           candidates: seq<Row>, redirects: seq<Row>, i: nat)
    requires RedirectsExactly(env, urlRewrites, MatchAll(BuildIndex(stored), candidates).rest, redirects)
    requires i < |stored| && NeedsRedirect(stored[i])
    requires forall j | i < j < |stored| :: !FiledAt(stored[j], StoreOf(stored[i]), PathOf(stored[i]))
    requires Unclaimed(candidates, StoreOf(stored[i]), PathOf(stored[i]))
    ensures Redirect(env, urlRewrites, stored[i]) in redirects
  {
    var s, p := StoreOf(stored[i]), PathOf(stored[i]);
    BuildIndexEntries(stored, s, p);
    assert At(BuildIndex(stored), s, p) == Some(stored[i]);
    RedirectsEveryUnclaimed(env, urlRewrites, BuildIndex(stored), candidates, redirects, s, p);
  }

  // ---------------------------------------------------------------------
  // The product/category relation

  /**
   * initializeUrlRewriteProductCategory: the relation attributes merged onto
   * the stored relation for the same product and category id when one is
   * found, the attributes alone otherwise. The attributes always win.
   */
  function InitializeUrlRewriteProductCategory(env: Collaborators, attr: Row): (r: Row)
    ensures forall k | k in attr :: k in r && r[k] == attr[k]
    ensures var loaded := env.loadUrlRewriteProductCategory(Field(attr, PRODUCT_ID), Field(attr, CATEGORY_ID));
      if loaded.Some? && loaded.value != map[] then
        r.Keys == loaded.value.Keys + attr.Keys && forall k | k in loaded.value && k !in attr :: r[k] == loaded.value[k]
      else
        r == attr
  {
    var loaded := env.loadUrlRewriteProductCategory(Field(attr, PRODUCT_ID), Field(attr, CATEGORY_ID));
    if loaded.Some? && loaded.value != map[] then ArrayMerge(loaded.value, attr) else attr
  }
}
