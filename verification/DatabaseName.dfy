/** Tenant database and role names on the shared Postgres cluster. */
module DatabaseName {
  predicate LowerAlnum(c: char) {
    'a' <= c <= 'z' || '0' <= c <= '9'
  }

  /** `SLUG`: a leading letter or digit, then 1 to 62 letters, digits or hyphens. */
  predicate IsSlug(s: string) {
    2 <= |s| <= 63 && LowerAlnum(s[0]) && forall k :: 0 <= k < |s| ==> LowerAlnum(s[k]) || s[k] == '-'
  }

  /** The tenant id shape `safe_plan` accepts: 36 hexadecimal digits or hyphens, in any order. */
  predicate IsTenantId(s: string) {
    |s| == 36 && forall k :: 0 <= k < |s| ==> '0' <= s[k] <= '9' || 'a' <= s[k] <= 'f' || s[k] == '-'
  }

  /** `PG_IDENT`. */
  predicate IsPgIdent(s: string) {
    3 <= |s| <= 63 && s[0] == 't' && s[1] == '_' && forall k :: 2 <= k < |s| ==> LowerAlnum(s[k]) || s[k] == '_'
  }

  /** `slug.replace("-", "_")`. */
  function Underscored(slug: string): (r: string)
    ensures |r| == |slug|
    ensures forall k :: 0 <= k < |slug| ==> r[k] == if slug[k] == '-' then '_' else slug[k]
  {
    seq(|slug|, k requires 0 <= k < |slug| => if slug[k] == '-' then '_' else slug[k])
  }

  /** `tenant_id.replace("-", "")`. */
  function Digits(id: string): (r: string)
    ensures |r| <= |id| && forall k :: 0 <= k < |r| ==> r[k] in id && r[k] != '-'
  {
    if id == "" then ""
    else (if id[0] == '-' then "" else [id[0]]) + Digits(id[1..])
  }

  function IdFragment(id: string): (r: string)
    ensures |r| <= 8 && forall k :: 0 <= k < |r| ==> r[k] in id && r[k] != '-'
  {
    if |Digits(id)| <= 8 then Digits(id) else Digits(id)[..8]
  }

  function PlacementDatabaseName(slug: string, tenantId: string): string {
    var candidate := "t_" + Underscored(slug);
    if |candidate| <= 63 then candidate
    else "t_" + Underscored(slug)[..52] + "_" + IdFragment(tenantId)
  }

  /** Every accepted tenant gets a name Postgres takes unquoted. */
  lemma NameIsSafeIdentifier(slug: string, tenantId: string)
    requires IsSlug(slug) && IsTenantId(tenantId)
    ensures IsPgIdent(PlacementDatabaseName(slug, tenantId))
    ensures |slug| > 61 && |Digits(tenantId)| >= 8 ==> |PlacementDatabaseName(slug, tenantId)| == 63
  {
    var name := PlacementDatabaseName(slug, tenantId);
    var fragment := IdFragment(tenantId);
    if |slug| > 61 {
      assert forall k :: 55 <= k < |name| ==> name[k] == fragment[k - 55];
    }
  }

  /** Underscoring is injective on slugs, because no slug contains an underscore. */
  lemma UnderscoredInjective(a: string, b: string)
    requires '_' !in a && '_' !in b && Underscored(a) == Underscored(b)
    ensures a == b
  {
    forall k | 0 <= k < |a|
      ensures a[k] == b[k]
    {
      assert Underscored(a)[k] == Underscored(b)[k];
    }
  }

  /** When the short slug `a` gets the same name as the truncated slug `b`. */
  predicate Truncates(a: string, b: string, idB: string)
    requires |b| > 61
  {
    |a| > 52 && a[..52] == b[..52] && a[52] == '-' && a[53..] == IdFragment(idB)
  }

  /** The characters of a name put together from a head, a middle, a mark and a tail. */
  lemma CharsOf(head: string, middle: string, mark: char, tail: string)
    ensures var name := head + middle + [mark] + tail;
            && |name| == |head| + |middle| + 1 + |tail| && name[..|head|] == head && name[|head| + |middle|] == mark
            && (forall k :: |head| <= k < |head| + |middle| ==> name[k] == middle[k - |head|])
            && (forall k :: |head| + |middle| < k < |name| ==> name[k] == tail[k - |head| - |middle| - 1])
  {
  }

  /** The characters of a short name and of a truncated one. */
  lemma NameParts(a: string, idA: string, b: string, idB: string)
    requires |a| <= 61 < |b|
    ensures var short, long := PlacementDatabaseName(a, idA), PlacementDatabaseName(b, idB);
            && |short| == |a| + 2 && |long| == |IdFragment(idB)| + 55 && long[54] == '_'
            && short[..2] == "t_" == long[..2]
            && (forall k :: 2 <= k < |short| ==> short[k] == Underscored(a)[k - 2])
            && (forall k :: 2 <= k < 54 ==> long[k] == Underscored(b)[k - 2])
            && (forall k :: 55 <= k < |long| ==> long[k] == IdFragment(idB)[k - 55])
  {
    hide IdFragment;
    CharsOf("t_", Underscored(b)[..52], '_', IdFragment(idB));
    assert ("t_" + Underscored(a))[..2] == "t_";
  }

  lemma ShortLongCollision(a: string, idA: string, b: string, idB: string)
    requires IsSlug(a) && IsSlug(b) && IsTenantId(idA) && IsTenantId(idB)
    requires |a| <= 61 < |b|
    ensures PlacementDatabaseName(a, idA) == PlacementDatabaseName(b, idB) <==> Truncates(a, b, idB)
  {
    NameParts(a, idA, b, idB);
    hide PlacementDatabaseName, IsTenantId;
    var short, long, fragment := PlacementDatabaseName(a, idA), PlacementDatabaseName(b, idB), IdFragment(idB);
    if short == long {
      forall k | 0 <= k < |a|
        ensures k < 52 ==> a[k] == b[k]
        ensures k == 52 ==> a[k] == '-'
        ensures k > 52 ==> a[k] == fragment[k - 53]
      {
        assert short[k + 2] == long[k + 2];
      }
    }
    if Truncates(a, b, idB) {
      forall k | 0 <= k < |long|
        ensures short[k] == long[k]
      {
        if k < 2 {
          assert short[..2][k] == long[..2][k];
        } else if k < 54 {
          assert a[..52][k - 2] == b[..52][k - 2];
        } else if k > 54 {
          assert a[53..][k - 55] == fragment[k - 55];
        }
      }
    }
  }

  lemma LongLongCollision(a: string, idA: string, b: string, idB: string)
    requires IsSlug(a) && IsSlug(b) && IsTenantId(idA) && IsTenantId(idB)
    requires |a| > 61 && |b| > 61
    ensures PlacementDatabaseName(a, idA) == PlacementDatabaseName(b, idB)
            <==> a[..52] == b[..52] && IdFragment(idA) == IdFragment(idB)
  {
    var nameA, nameB := PlacementDatabaseName(a, idA), PlacementDatabaseName(b, idB);
    if nameA == nameB {
      forall k | 0 <= k < 52
        ensures a[k] == b[k]
      {
        assert nameA[k + 2] == nameB[k + 2];
      }
      assert nameA[55..] == IdFragment(idA) && nameB[55..] == IdFragment(idB);
    }
    if a[..52] == b[..52] {
      assert Underscored(a)[..52] == Underscored(b)[..52] by {
        assert forall k :: 0 <= k < 52 ==> a[k] == a[..52][k] && b[k] == b[..52][k];
      }
    }
  }

  /** Exactly when two tenants are given the same database, for every pair of tenants. */
  lemma CollisionsExactly(a: string, idA: string, b: string, idB: string)
    requires IsSlug(a) && IsSlug(b) && IsTenantId(idA) && IsTenantId(idB)
    ensures PlacementDatabaseName(a, idA) == PlacementDatabaseName(b, idB) <==>
            if |a| <= 61 && |b| <= 61 then a == b
            else if |a| <= 61 then Truncates(a, b, idB)
            else if |b| <= 61 then Truncates(b, a, idA)
            else a[..52] == b[..52] && IdFragment(idA) == IdFragment(idB)
  {
    if |a| <= 61 && |b| <= 61 {
      if PlacementDatabaseName(a, idA) == PlacementDatabaseName(b, idB) {
        assert PlacementDatabaseName(a, idA)[2..] == Underscored(a);
        assert PlacementDatabaseName(b, idB)[2..] == Underscored(b);
        UnderscoredInjective(a, b);
      }
    } else if |a| <= 61 {
      ShortLongCollision(a, idA, b, idB);
    } else if |b| <= 61 {
      ShortLongCollision(b, idB, a, idA);
    } else {
      LongLongCollision(a, idA, b, idB);
    }
  }

  /** Truncation is not collision-free: every slug over 61 characters has a short valid slug
      that is given the same database, whatever the other tenant's id. */
  lemma LongSlugHasShortTwin(slug: string, id: string, otherId: string) returns (twin: string)
    requires IsSlug(slug) && IsTenantId(id) && IsTenantId(otherId) && |slug| > 61
    ensures IsSlug(twin) && twin != slug
    ensures PlacementDatabaseName(twin, otherId) == PlacementDatabaseName(slug, id)
  {
    twin := slug[..52] + "-" + IdFragment(id);
    assert twin[..52] == slug[..52] && twin[53..] == IdFragment(id);
    ShortLongCollision(twin, otherId, slug, id);
  }
}
