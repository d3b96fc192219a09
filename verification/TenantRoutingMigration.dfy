/** Revision 0016: every existing user and workspace gets a slug. */
module TenantRoutingMigration {
  import opened Slugs

  /** The migration's own `_slugify`: never empty, so its callers' fallbacks are never used. */
  function Slugify(name: string): (s: string) {
    WorkspaceBase(name)
  }

  datatype NamedRow = NamedRow(owner: int, name: string)

  /** Slugs given to the rows of one owner before row i. */
  function Before(rows: seq<NamedRow>, slugs: seq<string>, i: nat, owner: int): set<string>
    requires i <= |rows| && i <= |slugs|
  {
    set j | 0 <= j < i && rows[j].owner == owner :: slugs[j]
  }

  /** Every row has the first slug that is free among the earlier rows of its owner. */
  ghost predicate Backfilled(rows: seq<NamedRow>, slugs: seq<string>) {
    |slugs| <= |rows|
    && forall i :: 0 <= i < |slugs| ==>
         slugs[i] == FirstFree(Slugify(rows[i].name), Before(rows, slugs, i, rows[i].owner))
  }

  lemma BeforeKeeps(rows: seq<NamedRow>, slugs: seq<string>, slug: string, i: nat, owner: int)
    requires i <= |slugs| <= |rows|
    ensures Before(rows, slugs + [slug], i, owner) == Before(rows, slugs, i, owner)
  {
    assert forall j :: 0 <= j < i ==> (slugs + [slug])[j] == slugs[j];
  }

  lemma BeforeNext(rows: seq<NamedRow>, slugs: seq<string>, slug: string, owner: int)
    requires |slugs| < |rows|
    ensures Before(rows, slugs + [slug], |slugs| + 1, owner)
            == Before(rows, slugs, |slugs|, owner) + if rows[|slugs|].owner == owner then {slug} else {}
  {
    BeforeKeeps(rows, slugs, slug, |slugs|, owner);
    assert (slugs + [slug])[|slugs|] == slug;
  }

  lemma BackfilledNext(rows: seq<NamedRow>, slugs: seq<string>)
    requires Backfilled(rows, slugs) && |slugs| < |rows|
    ensures var i := |slugs|;
            Backfilled(rows, slugs + [FirstFree(Slugify(rows[i].name), Before(rows, slugs, i, rows[i].owner))])
  {
    var n := |slugs|;
    var after := slugs + [FirstFree(Slugify(rows[n].name), Before(rows, slugs, n, rows[n].owner))];
    forall i | 0 <= i <= n ensures after[i] == FirstFree(Slugify(rows[i].name), Before(rows, after, i, rows[i].owner)) {
      BeforeKeeps(rows, slugs, after[n], i, rows[i].owner);
    }
  }

  /** The backfill of users: all of them share one set of slugs. */
  method BackfillUsers(usernames: seq<string>) returns (slugs: seq<string>)
    ensures |slugs| == |usernames|
    ensures Backfilled(OneOwner(usernames), slugs)
  {
    ghost var rows := OneOwner(usernames);
    slugs := [];
    var used: set<string> := {};
    for i := 0 to |usernames|
      invariant |slugs| == i && Backfilled(rows, slugs) && used == Before(rows, slugs, i, 0)
    {
      var base := Slugify(usernames[i]);
      var cand := AllocateUnique(if base == "" then "user" else base, used);
      BackfilledNext(rows, slugs);
      BeforeNext(rows, slugs, cand, 0);
      used := used + {cand};
      slugs := slugs + [cand];
    }
  }

  function OneOwner(usernames: seq<string>): (rows: seq<NamedRow>)
    ensures |rows| == |usernames| && forall i :: 0 <= i < |rows| ==> rows[i] == NamedRow(0, usernames[i])
  {
    seq(|usernames|, i requires 0 <= i < |usernames| => NamedRow(0, usernames[i]))
  }

  /** The backfill of workspaces that are not deleted, with one set of slugs per owner. */
  method BackfillWorkspaces(rows: seq<NamedRow>) returns (slugs: seq<string>)
    ensures |slugs| == |rows| && Backfilled(rows, slugs)
  {
    slugs := [];
    var perOwner: map<int, set<string>> := map[];
    for i := 0 to |rows|
      invariant |slugs| == i && Backfilled(rows, slugs)
      invariant forall owner :: Before(rows, slugs, i, owner) == if owner in perOwner then perOwner[owner] else {}
    {
      var owner := rows[i].owner;
      var taken := if owner in perOwner then perOwner[owner] else {};
      var base := Slugify(rows[i].name);
      var cand := AllocateUnique(if base == "" then "workspace" else base, taken);
      BackfilledNext(rows, slugs);
      forall o {
        BeforeNext(rows, slugs, cand, o);
      }
      perOwner := perOwner[owner := taken + {cand}];
      slugs := slugs + [cand];
    }
  }

  /** Rows of the same owner never share a slug: all users differ, and all workspaces of one owner differ. */
  lemma BackfillIsUnique(rows: seq<NamedRow>, slugs: seq<string>, i: nat, j: nat)
    requires Backfilled(rows, slugs) && i < j < |slugs|
    requires rows[i].owner == rows[j].owner
    ensures slugs[i] != slugs[j]
  {
    assert slugs[i] in Before(rows, slugs, j, rows[j].owner);
    var k := FirstFreeIsFirst(Slugify(rows[j].name), Before(rows, slugs, j, rows[j].owner));
  }

  predicate GivenBefore(rows: seq<NamedRow>, slugs: seq<string>, i: nat, slug: string)
    requires i < |slugs| <= |rows|
  {
    exists j :: 0 <= j < i && rows[j].owner == rows[i].owner && slugs[j] == slug
  }

  /** The slug of a row is the first of name, name-2, name-3 and so on that no earlier row of its owner was given; rows
      of other owners play no part. */
  lemma BackfilledSlug(rows: seq<NamedRow>, slugs: seq<string>, i: nat) returns (n: nat)
    requires Backfilled(rows, slugs) && i < |slugs|
    ensures var slug := SlugifyWorkspaceName(rows[i].name);
            var base := if slug == "" then "workspace" else slug;
            && slugs[i] == (if n == 0 then base else base + "-" + Decimal(n + 1))
            && !GivenBefore(rows, slugs, i, slugs[i])
            && forall m: nat :: m < n ==> GivenBefore(rows, slugs, i, Candidate(base, m))
  {
    var taken := Before(rows, slugs, i, rows[i].owner);
    n := FirstFreeIsFirst(Slugify(rows[i].name), taken);
    forall slug: string ensures slug in taken <==> GivenBefore(rows, slugs, i, slug) {
    }
  }

  /** The migration and the sign-up path start a user from the same base unless the username leaves no slug: then the
      migration starts from "workspace", and sign-up from "user". */
  lemma MigrationIgnoresUserFallback(username: string)
    ensures Slugify(username) == UserBase(username) <==> SlugifyWorkspaceName(username) != ""
    ensures Slugify(username) != ""
  {
    assert "workspace"[0] != "user"[0];
  }
}
