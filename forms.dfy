/**
 * `FollowForm.clean`: the model form for a follow edge refuses a pair whose
 * two fields are equal. A field that did not clean is missing (`None`), so
 * two missing fields compare equal and are refused too. No admin class or
 * view uses this form; the follow admin saves through its default form.
 */
module FollowForms {
  import opened Types

  datatype FollowData = FollowData(user: Option<UserId>, follower: Option<UserId>)

  datatype FormError = SelfFollow

  function Clean(d: FollowData): (r: Result<FollowData, FormError>)
    ensures r.Ok? ==> r.value == d
    ensures r.Ok? ==> d.user != d.follower
  {
    if d.user == d.follower then Err(SelfFollow) else Ok(d)
  }

  /** A user paired with themself is refused. */
  lemma SelfPairRejected(u: UserId)
    ensures Clean(FollowData(Some(u), Some(u))) == Err(SelfFollow)
  {
  }

  /** Two distinct users pass, with the data unchanged. */
  lemma DistinctPairAccepted(u: UserId, v: UserId)
    requires u != v
    ensures Clean(FollowData(Some(u), Some(v))) == Ok(FollowData(Some(u), Some(v)))
  {
  }

  /** Both fields missing compare equal, so the form is refused. */
  lemma BothMissingRejected()
    ensures Clean(FollowData(None, None)) == Err(SelfFollow)
  {
  }

  /** Exactly one missing field passes this check. */
  lemma OneMissingAccepted(u: UserId)
    ensures Clean(FollowData(Some(u), None)).Ok?
    ensures Clean(FollowData(None, Some(u))).Ok?
  {
  }
}
