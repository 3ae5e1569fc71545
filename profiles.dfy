/**
 * The candidate query of src/MatchingSystem.jsx (`fetchPotentialMatches`):
 * `profiles` rows whose id is not the user's, at most ten of them.
 */
module Profiles {
  import opened Common

  /** A row of `profiles`; `username` and `bio` are only shown, never decided on. */
  datatype Profile = Profile(id: UserId, username: string, bio: string)

  /** The `.limit(10)` of the query. */
  const CandidateLimit: nat := 10

  /** `.neq('id', me)`, keeping table order. */
  function Others(profiles: seq<Profile>, me: UserId): (r: seq<Profile>)
    ensures forall p :: p in r <==> p in profiles && p.id != me
    ensures |r| <= |profiles|
  {
    if profiles == [] then []
    else (if profiles[0].id != me then [profiles[0]] else []) + Others(profiles[1..], me)
  }

  /**
   * The rows the query returns: never the user, never more than ten, and every other
   * profile unless the ten places are taken.
   */
  function Candidates(profiles: seq<Profile>, me: UserId): (r: seq<Profile>)
    ensures |r| <= CandidateLimit
    ensures forall p :: p in r ==> p in profiles && p.id != me
    ensures |r| == CandidateLimit || forall p :: p in profiles && p.id != me ==> p in r
  {
    var others := Others(profiles, me);
    if |others| <= CandidateLimit then others
    else
      var r := others[..CandidateLimit];
      assert forall p :: p in r ==> p in others by {
        forall p | p in r ensures p in others {
          var k :| 0 <= k < |r| && r[k] == p;
          assert others[k] == p;
        }
      }
      r
  }

  /** Whether the swipe view has run past the last fetched profile. */
  predicate Exhausted(currentIndex: nat, potentialMatches: seq<Profile>)
  {
    currentIndex >= |potentialMatches|
  }
}
