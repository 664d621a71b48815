/** The permission view-model: which permission the onboarding screen still has to ask for. */
module Permission {

  datatype Permission = CallLog | Notification | AllGranted

  /** The state before anything has been asked. */
  const INITIAL: Permission := CallLog

  /** `updatePermissionState`: the new state is decided by the two grant flags alone. */
  function Update(current: Permission, isCallLogGranted: bool, isNotificationGranted: bool): (r: Permission)
    ensures r == AllGranted <==> isCallLogGranted && isNotificationGranted
    ensures r == CallLog <==> !isCallLogGranted
    ensures r == Notification <==> isCallLogGranted && !isNotificationGranted
  {
    if isCallLogGranted && isNotificationGranted then AllGranted
    else if !isCallLogGranted then CallLog
    else Notification
  }

  /** The previous state plays no part, so repeating an update changes nothing. */
  lemma UpdateIgnoresCurrent(p: Permission, q: Permission, a: bool, b: bool)
    ensures Update(p, a, b) == Update(q, a, b)
    ensures Update(Update(p, a, b), a, b) == Update(p, a, b)
  {
  }

  /** What the permission screen reports when the permission it is showing gets granted. */
  function OnGranted(current: Permission): (r: Permission)
    ensures r != CallLog
    ensures current != AllGranted ==> r != current
    ensures current == AllGranted ==> r == AllGranted
  {
    match current
    case CallLog => Update(current, true, false)
    case Notification => Update(current, true, true)
    case AllGranted => current
  }

  /** Granting the call log moves on to the notification prompt, and granting that finishes:
      two grants take the initial state to ALL_GRANTED, which then stays put. */
  lemma OnboardingFlow()
    ensures OnGranted(INITIAL) == Notification
    ensures OnGranted(OnGranted(INITIAL)) == AllGranted
    ensures OnGranted(AllGranted) == AllGranted
  {
  }
}
