/**
 * The observer that creates and updates a product's URL rewrites during an
 * import: it indexes the rewrites already stored for the product, lets each
 * freshly computed rewrite claim its stored counterpart, and turns every
 * stale autogenerated rewrite into a permanent redirect.
 */
module Observer {
  import opened PhpValues
  import opened MemberNames
  import opened RewriteIndex
  import opened Reconciliation

  /** One element of a non-empty set: the next key a foreach over the index visits. */
  method PickKey<K>(keys: set<K>) returns (k: K)
    requires keys != {}
    ensures k in keys
  {
    k :| k in keys;
  }

  /**
   * Regrouping one append. Stated on its own so that the leftover loop can
   * re-establish `persisted == before + out` without the solver searching
   * for it among the loop's other facts.
   */
  lemma AppendAssociative(a: seq<Row>, b: seq<Row>, r: Row)
    ensures (a + b) + [r] == a + (b + [r])
  {
  }

  class UrlRewriteUpdateObserver {
    /** The parent class, the subject and PHP's serializer, as functions. */
    const env: Collaborators
    /** The parent's freshly computed rewrites, keyed by category id. */
    var urlRewrites: map<int, Row>
    /** The stored rewrites not yet claimed, by store id and request path. */
    var existingUrlRewrites: Index
    /** Every row handed to persistUrlRewrite, in order. */
    var persisted: seq<Row>

    ghost predicate Valid()
      reads this
    {
      WellFormed(existingUrlRewrites)
    }

    constructor (env: Collaborators)
      ensures Valid()
      ensures this.env == env
      ensures urlRewrites == map[] && existingUrlRewrites == map[] && persisted == []
    {
      this.env := env;
      urlRewrites := map[];
      existingUrlRewrites := map[];
      persisted := [];
    }

    /** persistUrlRewrite: the row is handed to storage, here appended to the log. */
    method PersistUrlRewrite(urlRewrite: Row)
      modifies this`persisted
      ensures persisted == old(persisted) + [urlRewrite]
    {
      persisted := persisted + [urlRewrite];
    }

    /**
     * prepareUrlRewrites: takes the candidates the parent prepared, empties
     * the index and files every row storage returned for the product under
     * its store id and request path, a later row replacing an earlier one.
     */
    method PrepareUrlRewrites(candidates: map<int, Row>, stored: seq<Row>)
      modifies this`urlRewrites, this`existingUrlRewrites
      ensures Valid()
      ensures urlRewrites == candidates
      ensures existingUrlRewrites == BuildIndex(stored)
      ensures persisted == old(persisted)
    {
      urlRewrites := candidates;
      existingUrlRewrites := map[];
      for i := 0 to |stored|
        invariant urlRewrites == candidates && persisted == old(persisted)
        invariant existingUrlRewrites == BuildIndex(stored[..i])
      {
        var existingUrlRewrite := stored[i];
        var storeId := IntCast(Field(existingUrlRewrite, STORE_ID));
        var requestPath := ToStr(Field(existingUrlRewrite, REQUEST_PATH));
        var byPath := if storeId in existingUrlRewrites then existingUrlRewrites[storeId] else map[];
        ghost var built := Insert(existingUrlRewrites, existingUrlRewrite);
        existingUrlRewrites := existingUrlRewrites[storeId := byPath[requestPath := existingUrlRewrite]];
        assert existingUrlRewrites == built;
        BuildIndexStep(stored, i);
      }
      assert stored[..|stored|] == stored;
    }

    /** removeExistingUrlRewrite: unsets the passed row's position in the index, if it is there. */
    method RemoveExistingUrlRewrite(urlRewrite: Row)
      requires Valid()
      modifies this`existingUrlRewrites
      ensures Valid()
      ensures existingUrlRewrites == Remove(old(existingUrlRewrites), urlRewrite)
    {
      var storeId := IntCast(Field(urlRewrite, STORE_ID));
      var requestPath := ToStr(Field(urlRewrite, REQUEST_PATH));
      if HasEntry(existingUrlRewrites, storeId, requestPath) {
        existingUrlRewrites := existingUrlRewrites[storeId := existingUrlRewrites[storeId] - {requestPath}];
      }
    }

    /**
     * initializeUrlRewrite: the row to persist for a candidate, None for
     * PHP's false, claiming the stored row at the candidate's position.
     */
    method InitializeUrlRewrite(attr: Row) returns (r: Option<Row>)
      requires Valid()
      modifies this`existingUrlRewrites
      ensures Valid()
      ensures Match(old(existingUrlRewrites), attr) == Matched(existingUrlRewrites, r)
    {
      var storeId := Field(attr, STORE_ID);
      var requestPath := Field(attr, REQUEST_PATH);
      var urlRewrite := Lookup(existingUrlRewrites, storeId, requestPath);
      if urlRewrite.Some? && urlRewrite.value != map[] {
        RemoveExistingUrlRewrite(urlRewrite.value);
        if IsManual(urlRewrite.value) {
          return None;
        }
        return Some(ArrayMerge(urlRewrite.value, attr));
      }
      return Some(attr);
    }

    /**
     * The matching phase the parent's process runs: every candidate, in the
     * parent's order, goes through initializeUrlRewrite and each row it
     * returns is persisted.
     */
    method ProcessCandidates(candidates: seq<Row>)
      requires Valid()
      modifies this`existingUrlRewrites, this`persisted
      ensures Valid()
      ensures existingUrlRewrites == MatchAll(old(existingUrlRewrites), candidates).rest
      ensures persisted == old(persisted) + MatchAll(old(existingUrlRewrites), candidates).emitted
    {
      for i := 0 to |candidates|
        invariant Valid()
        invariant existingUrlRewrites == MatchAll(old(existingUrlRewrites), candidates[..i]).rest
        invariant persisted == old(persisted) + MatchAll(old(existingUrlRewrites), candidates[..i]).emitted
      {
        MatchAllStep(old(existingUrlRewrites), candidates, i);
        var urlRewrite := InitializeUrlRewrite(candidates[i]);
        if urlRewrite.Some? {
          PersistUrlRewrite(urlRewrite.value);
        }
      }
      assert candidates[..|candidates|] == candidates;
    }

    /**
     * process: the matching phase, then the leftover phase over what the
     * matching phase left in the index.
     */
    method Process(candidates: seq<Row>)
      requires Valid()
      modifies this`existingUrlRewrites, this`persisted
      ensures Valid()
      ensures existingUrlRewrites == MatchAll(old(existingUrlRewrites), candidates).rest
      ensures var emitted := MatchAll(old(existingUrlRewrites), candidates).emitted;
        var n := |old(persisted)| + |emitted|;
        && |persisted| >= n
        && persisted[..n] == old(persisted) + emitted
        && RedirectsExactly(env, urlRewrites, existingUrlRewrites, persisted[n..])
    {
      ProcessCandidates(candidates);
      ghost var matched := persisted;
      RedirectLeftovers();
      assert |matched| == |old(persisted)| + |MatchAll(old(existingUrlRewrites), candidates).emitted|;
    }

    /**
     * The leftover phase of process: every entry still in the index is
     * looked at once, store by store. The index itself does not change.
     */
    method RedirectLeftovers()
      requires Valid()
      modifies this`persisted
      ensures |persisted| >= |old(persisted)| && persisted[..|old(persisted)|] == old(persisted)
      ensures RedirectsExactly(env, urlRewrites, existingUrlRewrites, persisted[|old(persisted)|..])
    {
      ghost var before := persisted;
      ghost var out: seq<Row> := [];
      ghost var done: set<(int, string)> := {};
      var stores := existingUrlRewrites.Keys;
      while stores != {}
        invariant Valid()
        invariant stores <= existingUrlRewrites.Keys
        invariant persisted == before + out
        invariant RedirectsSoFar(env, urlRewrites, existingUrlRewrites, out, done)
        invariant forall k | k in done :: k.0 !in stores
        invariant forall s, p | HasEntry(existingUrlRewrites, s, p) && s !in stores :: (s, p) in done
        decreases stores
      {
        var storeId := PickKey(stores);
        out, done := RedirectStore(storeId, before, out, done);
        stores := stores - {storeId};
      }
      RedirectsSoFarComplete(env, urlRewrites, existingUrlRewrites, out, done);
      assert persisted[..|before|] == before && persisted[|before|..] == out;
    }

    /**
     * The inner foreach of the leftover phase, over the request paths of one
     * store: manual entries and entries that already are redirects are
     * skipped, every other one is persisted as its redirect. `out0` and
     * `done0` are the redirects persisted and the positions visited before,
     * `out` and `done` the same after.
     */
    method RedirectStore(storeId: int, ghost before: seq<Row>, ghost out0: seq<Row>, ghost done0: set<(int, string)>)
      returns (ghost out: seq<Row>, ghost done: set<(int, string)>)
      requires Valid() && storeId in existingUrlRewrites
      requires persisted == before + out0
      requires RedirectsSoFar(env, urlRewrites, existingUrlRewrites, out0, done0)
      requires forall k | k in done0 :: k.0 != storeId
      modifies this`persisted
      ensures persisted == before + out
      ensures RedirectsSoFar(env, urlRewrites, existingUrlRewrites, out, done)
      ensures forall k :: k in done <==> k in done0 || (k.0 == storeId && k.1 in existingUrlRewrites[storeId])
    {
      out, done := out0, done0;
      var byPath := existingUrlRewrites[storeId];
      var paths := byPath.Keys;
      while paths != {}
        invariant paths <= byPath.Keys
        invariant persisted == before + out
        invariant RedirectsSoFar(env, urlRewrites, existingUrlRewrites, out, done)
        invariant forall k :: k in done <==> k in done0 || (k.0 == storeId && k.1 in byPath && k.1 !in paths)
        decreases paths
      {
        var requestPath := PickKey(paths);
        paths := paths - {requestPath};
        var existingUrlRewrite := byPath[requestPath];
        if IsManual(existingUrlRewrite) {
          // created manually: never redirected
          RedirectsSoFarSkip(env, urlRewrites, existingUrlRewrites, out, done, storeId, requestPath);
          done := done + {(storeId, requestPath)};
          continue;
        }
        if IsRedirect(existingUrlRewrite) {
          // already a redirect: no redirect chains
          RedirectsSoFarSkip(env, urlRewrites, existingUrlRewrites, out, done, storeId, requestPath);
          done := done + {(storeId, requestPath)};
          continue;
        }
        existingUrlRewrite := RedirectRow(existingUrlRewrite);
        RedirectsSoFarAppend(env, urlRewrites, existingUrlRewrites, out, done, storeId, requestPath);
        PersistUrlRewrite(existingUrlRewrite);
        AppendAssociative(before, out, existingUrlRewrite);
        out, done := out + [existingUrlRewrite], done + {(storeId, requestPath)};
      }
    }

    /**
     * The redirect for one stale row: the category its metadata names when
     * the import computed a rewrite for it, the root category otherwise, and
     * the 301 configuration for that category merged onto the row.
     */
    method RedirectRow(existingUrlRewrite: Row) returns (r: Row)
      ensures r == Redirect(env, urlRewrites, existingUrlRewrite)
    {
      var metadata := GetMetadata(env, existingUrlRewrite);
      var category := env.rootCategory;
      var categoryId := ArrayKeyInt(metadata[CATEGORY_ID]);
      if categoryId.Some? && categoryId.value in urlRewrites {
        category := env.getCategory(categoryId.value);
      }
      var targetPath := env.prepareRequestPath(category);
      var serialized := env.serialize(env.prepareMetadata(category));
      var attr := map[IS_AUTOGENERATED := Int(0),
                      REDIRECT_TYPE := Int(PERMANENT_REDIRECT),
                      METADATA := Str(serialized),
                      TARGET_PATH := Str(targetPath)];
      r := ArrayMerge(existingUrlRewrite, attr);
    }
  }
}
