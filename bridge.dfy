/**
 * The Easywave bridge's lookup from a received remote id to the cover that
 * registered it.
 */
module Bridge {
  import opened Motion
  import opened Covers

  /**
   * The first cover, in registration order, whose remote id is `remoteId`,
   * or None when no cover has it.
   */
  function GetAccessory(accessories: seq<Cover>, remoteId: string): (r: Option<Cover>)
    ensures r.None? <==> forall i :: 0 <= i < |accessories| ==> accessories[i].remoteId != remoteId
    ensures r.Some? ==>
              exists i :: 0 <= i < |accessories| && accessories[i] == r.value &&
                          r.value.remoteId == remoteId &&
                          forall j :: 0 <= j < i ==> accessories[j].remoteId != remoteId
  {
    if accessories == [] then None
    else if accessories[0].remoteId == remoteId then Some(accessories[0])
    else
      var r := GetAccessory(accessories[1..], remoteId);
      assert forall i :: 0 < i < |accessories| ==> accessories[i] == accessories[1..][i - 1];
      r
  }
}
