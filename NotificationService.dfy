/**
 * The notification flags: hints (register 6), warnings (register 5) and
 * errors (register 3), each present exactly when its register holds 1.
 */
module NotificationService {
  import opened Registers
  import opened Const

  datatype NotificationData = NotificationData(hintsPresent: bool, warningsPresent: bool, errorPresent: bool)

  /** `get_notification_data`: three reads compared with 1. */
  function GetNotificationData(regs: seq<int>): (d: NotificationData)
    requires |regs| == RegisterCount
    ensures d.hintsPresent <==> regs[6] == 1
    ensures d.warningsPresent <==> regs[5] == 1
    ensures d.errorPresent <==> regs[3] == 1
  {
    NotificationData(regs[HintsPresentAddr] == 1, regs[WarningsPresentAddr] == 1, regs[ErrorsPresentAddr] == 1)
  }

  /** Only the value 1 sets a flag: 2, or any other count, reads as absent. */
  lemma OnlyOneIsPresent(regs: seq<int>, v: int)
    requires |regs| == RegisterCount && v != 1
    ensures !GetNotificationData(regs[ErrorsPresentAddr := v]).errorPresent
    ensures !GetNotificationData(regs[WarningsPresentAddr := v]).warningsPresent
    ensures !GetNotificationData(regs[HintsPresentAddr := v]).hintsPresent
  {
  }

  /** The flags depend on registers 3, 5 and 6 only. */
  lemma FlagsDependOnThreeRegisters(regs: seq<int>, i: int, v: int)
    requires |regs| == RegisterCount && 0 <= i < RegisterCount
    requires i != ErrorsPresentAddr && i != WarningsPresentAddr && i != HintsPresentAddr
    ensures GetNotificationData(regs[i := v]) == GetNotificationData(regs)
  {
  }
}
