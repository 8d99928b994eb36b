/** The application events of `airshift_event.h`: the identifiers the Matter
    layer posts and the main event handler dispatches on. */
module Events {
  import opened Results

  const COMMISSIONING_WINDOW_OPENED: int := 1
  const COMMISSIONING_WINDOW_CLOSED: int := 2
  const IP_EVENT_STA_GOT_IP: int := 3
  const REBOOT_NEEDED: int := 999

  /** The two event bases, AIRSHIFT_EVENT_MATTER and AIRSHIFT_EVENT_GENERAL. */
  datatype Base = MatterBase | GeneralBase

  /** An event posted to the default loop; the window-closed event carries
      the commissioning-session flag, the others carry nothing. */
  datatype Posted = Posted(base: Base, id: int, sessionStarted: Option<bool>)
}
