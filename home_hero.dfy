/** The list logic of `src/components/HomeHeroToday.tsx`: the idols of the selected group, and the
    first ten records of the next thirty days with the flag that more exist. */
module HomeHero {
  import opened Common
  import opened Seqs
  import opened BirthdaySort
  import opened IdolCard

  /** `splitGroupAliases(groupName).map(normalizeForToken)`. */
  function NormalizedAliases(norm: string -> string, groupName: Option<string>): (r: seq<string>)
    ensures |r| == |SplitGroupAliases(groupName)|
    ensures forall i :: 0 <= i < |r| ==> r[i] == norm(SplitGroupAliases(groupName)[i])
  {
    MapSeq(SplitGroupAliases(groupName), norm)
  }

  /** `groupMembers`: nothing while no group token is selected (`null` or the empty string);
      otherwise the idols one of whose normalised aliases is the normalised token, in list order. */
  function GroupMembers(norm: string -> string, allIdols: seq<IdolWithDiff>, activeGroupToken: Option<string>)
    : seq<IdolWithDiff>
  {
    if activeGroupToken.None? || activeGroupToken.value == "" then []
    else
      var key := norm(activeGroupToken.value);
      Filter(allIdols, (x: IdolWithDiff) => key in NormalizedAliases(norm, x.idol.groupName))
  }

  /** The token's key is among the normalised aliases exactly when some alias normalises to it. */
  lemma NormalizedAliasesHas(norm: string -> string, groupName: Option<string>, key: string)
    ensures key in NormalizedAliases(norm, groupName) <==>
      exists a :: a in SplitGroupAliases(groupName) && norm(a) == key
  {
    MapSeqHas(SplitGroupAliases(groupName), norm, key);
  }

  /** With no token selected there are no members. With one, the members are the idols of the list,
      in list order, that show an alias chip the card marks as active. */
  lemma GroupMembersCharacterized(norm: string -> string, allIdols: seq<IdolWithDiff>,
                                  activeGroupToken: Option<string>, x: IdolWithDiff)
    ensures activeGroupToken.None? || activeGroupToken == Some("") ==>
      GroupMembers(norm, allIdols, activeGroupToken) == []
    ensures IsSubsequence(GroupMembers(norm, allIdols, activeGroupToken), allIdols)
    ensures x in GroupMembers(norm, allIdols, activeGroupToken) <==>
      x in allIdols && exists a :: a in SplitGroupAliases(x.idol.groupName) && IsActive(norm, a, activeGroupToken)
  {
    if activeGroupToken.Some? && activeGroupToken.value != "" {
      var key := norm(activeGroupToken.value);
      var p := (y: IdolWithDiff) => key in NormalizedAliases(norm, y.idol.groupName);
      FilterMembers(allIdols, p, x);
      FilterIsSubsequence(allIdols, p);
      NormalizedAliasesHas(norm, x.idol.groupName, key);
    }
  }

  /** How many of the next thirty days' records the card list shows. */
  const ShownLimit: nat := 10

  /** `next30Idols.slice(0, 10)`. */
  function Shown(next30Idols: seq<IdolWithDiff>): seq<IdolWithDiff> {
    if |next30Idols| <= ShownLimit then next30Idols else next30Idols[..ShownLimit]
  }

  /** `hasMore`. */
  predicate HasMore(next30Idols: seq<IdolWithDiff>) {
    |next30Idols| > ShownLimit
  }

  /** The list shows at most ten records, the first ones in their given order, all of them when
      there are ten or fewer; `hasMore` holds exactly when some record is not shown. */
  lemma ShownFirstTen(next30Idols: seq<IdolWithDiff>)
    ensures |Shown(next30Idols)| <= 10
    ensures forall i :: 0 <= i < |Shown(next30Idols)| ==> Shown(next30Idols)[i] == next30Idols[i]
    ensures |next30Idols| <= 10 ==> Shown(next30Idols) == next30Idols
    ensures |next30Idols| > 10 ==> |Shown(next30Idols)| == 10
    ensures HasMore(next30Idols) <==> |Shown(next30Idols)| < |next30Idols|
  {
  }
}
