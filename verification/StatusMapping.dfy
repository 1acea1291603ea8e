/** How a listed resource becomes a (status, message) report. */
module StatusMapping {
  import opened Basics
  import opened Grpc
  import opened History

  datatype ConditionStatus = CondTrue | CondOther

  datatype ClusterState = UnspecifiedState | Progressing | Ready | Failed | Deleting | DeleteFailed | FutureState

  datatype ClusterConditionType = CtProgressing | CtReady | CtFailed | CtDegraded | CtOther

  datatype ClusterCondition = ClusterCondition(
    kind: ClusterConditionType, status: ConditionStatus, message: string, reason: string)

  /** A nil status reads as the default values. */
  datatype OsacClusterStatus = OsacClusterStatus(state: ClusterState, conditions: seq<ClusterCondition>)

  datatype ClusterItem = ClusterItem(id: string, status: OsacClusterStatus)

  datatype ClusterStatus = ACTIVE | PROGRESSING | DEGRADED | FAILED | DELETING | UNAVAILABLE | DELETED_CLUSTER

  function ClusterName(s: ClusterStatus): string {
    match s
    case ACTIVE => "ACTIVE"
    case PROGRESSING => "PROGRESSING"
    case DEGRADED => "DEGRADED"
    case FAILED => "FAILED"
    case DELETING => "DELETING"
    case UNAVAILABLE => "UNAVAILABLE"
    case DELETED_CLUSTER => DELETED
  }

  predicate IsDegraded(conditions: seq<ClusterCondition>) {
    exists i :: 0 <= i < |conditions| && conditions[i].kind == CtDegraded && conditions[i].status == CondTrue
  }

  function MapClusterStatus(err: Option<Code>, status: OsacClusterStatus): ClusterStatus {
    match err
    case Some(Unavailable) => UNAVAILABLE
    case Some(DeadlineExceeded) => UNAVAILABLE
    case Some(NotFound) => DELETED_CLUSTER
    case Some(_) => FAILED
    case None =>
      match status.state
      case UnspecifiedState => PROGRESSING
      case Failed => FAILED
      case Deleting => DELETING
      case DeleteFailed => FAILED
      case _ =>
        if IsDegraded(status.conditions) then DEGRADED
        else match status.state
          case Ready => ACTIVE
          case Progressing => PROGRESSING
          case _ => FAILED
  }

  datatype VMState =
    VMUnspecified | Starting | Running | VMFailed | VMDeleting | Stopping | Stopped | Paused | VMFutureState

  datatype VMCondition = VMCondition(restartFailed: bool, status: ConditionStatus, message: string, reason: string)

  datatype VMItem = VMItem(id: string, state: VMState, conditions: seq<VMCondition>)

  datatype VMStatus = PROVISIONING | RUNNING | VM_FAILED | VM_DELETING | STOPPING | STOPPED | PAUSED | DELETED_VM

  function VMName(s: VMStatus): string {
    match s
    case PROVISIONING => "PROVISIONING"
    case RUNNING => "RUNNING"
    case VM_FAILED => "FAILED"
    case VM_DELETING => "DELETING"
    case STOPPING => "STOPPING"
    case STOPPED => "STOPPED"
    case PAUSED => "PAUSED"
    case DELETED_VM => DELETED
  }

  function MapVMStatus(err: Option<Code>, state: VMState): VMStatus {
    match err
    case Some(NotFound) => DELETED_VM
    case Some(_) => VM_FAILED
    case None =>
      match state
      case VMUnspecified => PROVISIONING
      case Starting => PROVISIONING
      case Running => RUNNING
      case VMFailed => VM_FAILED
      case VMDeleting => VM_DELETING
      case Stopping => STOPPING
      case Stopped => STOPPED
      case Paused => PAUSED
      case VMFutureState => VM_FAILED
  }

  // ----- messages

  function ToLower(s: string): string {
    seq(|s|, i requires 0 <= i < |s| => if 'A' <= s[i] <= 'Z' then s[i] - 'A' + 'a' else s[i])
  }

  function ConditionTypeFor(s: ClusterStatus): Option<ClusterConditionType> {
    match s
    case ACTIVE => Some(CtReady)
    case PROGRESSING => Some(CtProgressing)
    case DEGRADED => Some(CtDegraded)
    case FAILED => Some(CtFailed)
    case _ => None
  }

  /** The first condition of the wanted type decides, even when it says nothing. */
  function FirstMessage(kind: ClusterConditionType, conditions: seq<ClusterCondition>): string {
    if conditions == [] then ""
    else if conditions[0].kind != kind then FirstMessage(kind, conditions[1..])
    else if conditions[0].message != "" then conditions[0].message
    else conditions[0].reason
  }

  function ClusterMessage(s: ClusterStatus, conditions: seq<ClusterCondition>): string {
    var found := match ConditionTypeFor(s) case Some(kind) => FirstMessage(kind, conditions) case None => "";
    if found != "" then found else "cluster is " + ToLower(ClusterName(s))
  }

  /** Here a silent condition is passed over in favour of a later one. */
  function RestartFailure(conditions: seq<VMCondition>): string {
    if conditions == [] then ""
    else if !conditions[0].restartFailed || conditions[0].status != CondTrue then RestartFailure(conditions[1..])
    else if conditions[0].message != "" then conditions[0].message
    else if conditions[0].reason != "" then conditions[0].reason
    else RestartFailure(conditions[1..])
  }

  function VMMessage(s: VMStatus, conditions: seq<VMCondition>): string {
    var found := RestartFailure(conditions);
    if found != "" then found else "vm is " + ToLower(VMName(s))
  }

  /** Of a cluster's conditions only the first one of the status's own type matters, whatever surrounds it; it
      speaks with its message, else its reason, else the default speaks. */
  lemma {:induction false} FirstConditionSpeaks(s: ClusterStatus, skipped: seq<ClusterCondition>, c: ClusterCondition,
                                                rest: seq<ClusterCondition>)
    requires ConditionTypeFor(s) == Some(c.kind)
    requires forall i :: 0 <= i < |skipped| ==> skipped[i].kind != c.kind
    ensures ClusterMessage(s, skipped + [c] + rest)
         == if c.message != "" then c.message
            else if c.reason != "" then c.reason else "cluster is " + ToLower(ClusterName(s))
    decreases |skipped|
  {
    if skipped == [] {
      assert (skipped + [c] + rest)[0] == c;
    } else {
      FirstConditionSpeaks(s, skipped[1..], c, rest);
      assert (skipped + [c] + rest)[1..] == skipped[1..] + [c] + rest;
      assert (skipped + [c] + rest)[0] == skipped[0];
    }
  }

  /** A virtual machine's message is the first thing a true restart-failed condition has to say; silent ones
      are passed over. */
  lemma {:induction false} FirstRestartFailureSpeaks(s: VMStatus, skipped: seq<VMCondition>, c: VMCondition,
                                                     rest: seq<VMCondition>)
    requires c.restartFailed && c.status == CondTrue && (c.message != "" || c.reason != "")
    requires forall i :: 0 <= i < |skipped| ==>
               !skipped[i].restartFailed || skipped[i].status != CondTrue
               || (skipped[i].message == "" && skipped[i].reason == "")
    ensures VMMessage(s, skipped + [c] + rest) == if c.message != "" then c.message else c.reason
    decreases |skipped|
  {
    if skipped == [] {
      assert (skipped + [c] + rest)[0] == c;
    } else {
      FirstRestartFailureSpeaks(s, skipped[1..], c, rest);
      assert (skipped + [c] + rest)[1..] == skipped[1..] + [c] + rest;
      assert (skipped + [c] + rest)[0] == skipped[0];
    }
  }

  // ----- reports

  /** What the poller compares with its cache. */
  datatype Report = Report(id: string, status: string, message: string)

  /** A listed resource is never reported as deleted, and never without a message: DELETED always means
      disappearance. */
  function ClusterReport(item: ClusterItem): (r: Report)
    ensures r.id == item.id && r.status != DELETED && r.message != ""
  {
    var s := MapClusterStatus(None, item.status);
    Report(item.id, ClusterName(s), ClusterMessage(s, item.status.conditions))
  }

  function VMReport(item: VMItem): (r: Report)
    ensures r.id == item.id && r.status != DELETED && r.message != ""
  {
    var s := MapVMStatus(None, item.state);
    Report(item.id, VMName(s), VMMessage(s, item.conditions))
  }

  /** The only way to either DELETED status is a NotFound error. */
  lemma DeletedOnlyFromNotFound(err: Option<Code>, cluster: OsacClusterStatus, vm: VMState)
    ensures ClusterName(MapClusterStatus(err, cluster)) == DELETED <==> err == Some(NotFound)
    ensures VMName(MapVMStatus(err, vm)) == DELETED <==> err == Some(NotFound)
  {
    var s, v := MapClusterStatus(err, cluster), MapVMStatus(err, vm);
    assert ClusterName(s) == DELETED <==> s == DELETED_CLUSTER;
    assert VMName(v) == DELETED <==> v == DELETED_VM;
  }

  // ----- what is reported, in words

  ghost predicate Degraded(status: OsacClusterStatus) {
    exists c :: c in status.conditions && c.kind == CtDegraded && c.status == CondTrue
  }

  lemma DegradedIsFound(status: OsacClusterStatus)
    ensures IsDegraded(status.conditions) <==> Degraded(status)
  {
    if c :| c in status.conditions && c.kind == CtDegraded && c.status == CondTrue {
      var i :| 0 <= i < |status.conditions| && status.conditions[i] == c;
    }
    if i :| 0 <= i < |status.conditions|
            && status.conditions[i].kind == CtDegraded && status.conditions[i].status == CondTrue {
      assert status.conditions[i] in status.conditions;
    }
  }

  lemma NamesDiffer()
    ensures |"ACTIVE"| == |"FAILED"| == 6 && |"DELETED"| == 7 && |"DEGRADED"| == |"DELETING"| == 8
    ensures |"PROGRESSING"| == |"UNAVAILABLE"| == 11
    ensures "ACTIVE"[0] == 'A' && "FAILED"[0] == 'F' && "DEGRADED"[2] == 'G' && "DELETING"[2] == 'L'
    ensures "PROGRESSING"[0] == 'P' && "UNAVAILABLE"[0] == 'U'
  {
  }

  /** When a listed cluster is reported as what. */
  lemma ClusterReportSays(item: ClusterItem)
    ensures var state, degraded, text := item.status.state, Degraded(item.status), ClusterReport(item).status;
            && (text == "ACTIVE" <==> state == Ready && !degraded)
            && (text == "DEGRADED" <==> degraded && (state == Ready || state == Progressing || state == FutureState))
            && (text == "PROGRESSING" <==> state == UnspecifiedState || (state == Progressing && !degraded))
            && (text == "DELETING" <==> state == Deleting)
            && (text == "FAILED" <==> state == Failed || state == DeleteFailed || (state == FutureState && !degraded))
  {
    DegradedIsFound(item.status);
    NamesDiffer();
  }

  lemma VMNamesDiffer()
    ensures |"RUNNING"| == |"STOPPED"| == |"DELETED"| == 7 && |"FAILED"| == |"PAUSED"| == 6
    ensures |"DELETING"| == |"STOPPING"| == 8 && |"PROVISIONING"| == 12
    ensures "RUNNING"[0] == 'R' && "STOPPED"[0] == 'S' && "DELETED"[0] == 'D' && "FAILED"[0] == 'F'
    ensures "PAUSED"[0] == 'P' && "DELETING"[0] == 'D' && "STOPPING"[0] == 'S'
  {
  }

  /** When a listed virtual machine is reported as what. */
  lemma VMReportSays(item: VMItem)
    ensures var state, text := item.state, VMReport(item).status;
            && (text == "PROVISIONING" <==> state == VMUnspecified || state == Starting)
            && (text == "RUNNING" <==> state == Running)
            && (text == "FAILED" <==> state == VMFailed || state == VMFutureState)
            && (text == "DELETING" <==> state == VMDeleting)
            && (text == "STOPPING" <==> state == Stopping)
            && (text == "STOPPED" <==> state == Stopped)
            && (text == "PAUSED" <==> state == Paused)
  {
    VMNamesDiffer();
  }

  /** What an error in place of a status is reported as. */
  lemma ErrorsSay(code: Code, cluster: OsacClusterStatus, vm: VMState)
    ensures var c, v := MapClusterStatus(Some(code), cluster), MapVMStatus(Some(code), vm);
            && c == (match code case NotFound => DELETED_CLUSTER
                                case Unavailable => UNAVAILABLE
                                case DeadlineExceeded => UNAVAILABLE
                                case _ => FAILED)
            && v == (if code == NotFound then DELETED_VM else VM_FAILED)
  {
  }

  /** The condition type that speaks for a reported status. */
  predicate SpeaksFor(kind: ClusterConditionType, text: string) {
    match kind
    case CtReady => text == "ACTIVE"
    case CtProgressing => text == "PROGRESSING"
    case CtDegraded => text == "DEGRADED"
    case CtFailed => text == "FAILED"
    case CtOther => false
  }

  lemma SpeakingType(s: ClusterStatus, kind: ClusterConditionType)
    ensures ConditionTypeFor(s) == Some(kind) <==> SpeaksFor(kind, ClusterName(s))
  {
    NamesDiffer();
  }

  /** What a cluster's report says: its first condition of the type that speaks for its status has the word. */
  lemma ClusterReportQuotes(item: ClusterItem, i: nat)
    requires i < |item.status.conditions|
    requires SpeaksFor(item.status.conditions[i].kind, ClusterReport(item).status)
    requires forall j :: 0 <= j < i ==> item.status.conditions[j].kind != item.status.conditions[i].kind
    ensures var c := item.status.conditions[i];
            ClusterReport(item).message ==
            if c.message != "" then c.message
            else if c.reason != "" then c.reason else DefaultText(ClusterReport(item).status)
  {
    var conditions, s := item.status.conditions, MapClusterStatus(None, item.status);
    SpeakingType(s, conditions[i].kind);
    FirstConditionSpeaks(s, conditions[..i], conditions[i], conditions[i + 1..]);
    assert conditions == conditions[..i] + [conditions[i]] + conditions[i + 1..];
    DefaultTexts(s);
  }

  lemma {:induction false} NobodySpeaks(kind: ClusterConditionType, conditions: seq<ClusterCondition>)
    requires forall j :: 0 <= j < |conditions| ==> conditions[j].kind != kind
    ensures FirstMessage(kind, conditions) == ""
    decreases |conditions|
  {
    if conditions != [] {
      NobodySpeaks(kind, conditions[1..]);
    }
  }

  /** Without such a condition the status itself is all there is to say. */
  lemma ClusterReportDefaults(item: ClusterItem)
    requires forall c :: c in item.status.conditions ==> !SpeaksFor(c.kind, ClusterReport(item).status)
    ensures ClusterReport(item).message == DefaultText(ClusterReport(item).status)
  {
    var s := MapClusterStatus(None, item.status);
    DefaultTexts(s);
    match ConditionTypeFor(s)
    case None =>
    case Some(kind) =>
      SpeakingType(s, kind);
      NobodySpeaks(kind, item.status.conditions);
  }

  /** The default texts, written out. */
  function DefaultText(text: string): string {
    if text == "ACTIVE" then "cluster is active"
    else if text == "PROGRESSING" then "cluster is progressing"
    else if text == "DEGRADED" then "cluster is degraded"
    else if text == "FAILED" then "cluster is failed"
    else if text == "DELETING" then "cluster is deleting"
    else if text == "UNAVAILABLE" then "cluster is unavailable"
    else "cluster is deleted"
  }

  lemma LoweredNames()
    ensures ToLower("ACTIVE") == "active" && ToLower("PROGRESSING") == "progressing"
    ensures ToLower("DEGRADED") == "degraded" && ToLower("FAILED") == "failed"
    ensures ToLower("DELETING") == "deleting" && ToLower("UNAVAILABLE") == "unavailable"
    ensures ToLower("DELETED") == "deleted"
  {
  }

  lemma DefaultTexts(s: ClusterStatus)
    ensures "cluster is " + ToLower(ClusterName(s)) == DefaultText(ClusterName(s))
  {
    LoweredNames();
    NamesDiffer();
    match s
    case ACTIVE => assert "cluster is " + "active" == "cluster is active";
    case PROGRESSING => assert "cluster is " + "progressing" == "cluster is progressing";
    case DEGRADED => assert "cluster is " + "degraded" == "cluster is degraded";
    case FAILED => assert "cluster is " + "failed" == "cluster is failed";
    case DELETING => assert "cluster is " + "deleting" == "cluster is deleting";
    case UNAVAILABLE => assert "cluster is " + "unavailable" == "cluster is unavailable";
    case DELETED_CLUSTER => assert "cluster is " + "deleted" == "cluster is deleted";
  }

  /** A virtual machine's condition that has something to say about a failed restart. */
  predicate Complains(c: VMCondition) {
    c.restartFailed && c.status == CondTrue && (c.message != "" || c.reason != "")
  }

  /** What a virtual machine's report says: the first complaint about a failed restart, whatever the status. */
  lemma VMReportQuotes(item: VMItem, i: nat)
    requires i < |item.conditions| && Complains(item.conditions[i])
    requires forall j :: 0 <= j < i ==> !Complains(item.conditions[j])
    ensures VMReport(item).message ==
            if item.conditions[i].message != "" then item.conditions[i].message else item.conditions[i].reason
  {
    var cs := item.conditions;
    FirstRestartFailureSpeaks(MapVMStatus(None, item.state), cs[..i], cs[i], cs[i + 1..]);
    assert cs == cs[..i] + [cs[i]] + cs[i + 1..];
  }

  lemma {:induction false} NobodyComplains(conditions: seq<VMCondition>)
    requires forall j :: 0 <= j < |conditions| ==> !Complains(conditions[j])
    ensures RestartFailure(conditions) == ""
    decreases |conditions|
  {
    if conditions != [] {
      NobodyComplains(conditions[1..]);
    }
  }

  /** Without a complaint the status itself is all there is to say. */
  lemma VMReportDefaults(item: VMItem)
    requires forall j :: 0 <= j < |item.conditions| ==> !Complains(item.conditions[j])
    ensures VMReport(item).message == VMDefaultText(VMReport(item).status)
  {
    NobodyComplains(item.conditions);
    VMDefaultTexts(MapVMStatus(None, item.state));
  }

  function VMDefaultText(text: string): string {
    if text == "PROVISIONING" then "vm is provisioning"
    else if text == "RUNNING" then "vm is running"
    else if text == "FAILED" then "vm is failed"
    else if text == "DELETING" then "vm is deleting"
    else if text == "STOPPING" then "vm is stopping"
    else if text == "STOPPED" then "vm is stopped"
    else if text == "PAUSED" then "vm is paused"
    else "vm is deleted"
  }

  lemma LoweredVMNames()
    ensures ToLower("PROVISIONING") == "provisioning" && ToLower("RUNNING") == "running"
    ensures ToLower("FAILED") == "failed" && ToLower("DELETING") == "deleting"
    ensures ToLower("STOPPING") == "stopping" && ToLower("STOPPED") == "stopped"
    ensures ToLower("PAUSED") == "paused" && ToLower("DELETED") == "deleted"
  {
  }

  lemma VMDefaultTexts(s: VMStatus)
    ensures "vm is " + ToLower(VMName(s)) == VMDefaultText(VMName(s))
  {
    LoweredVMNames();
    VMNamesDiffer();
    match s
    case PROVISIONING => assert "vm is " + "provisioning" == "vm is provisioning";
    case RUNNING => assert "vm is " + "running" == "vm is running";
    case VM_FAILED => assert "vm is " + "failed" == "vm is failed";
    case VM_DELETING => assert "vm is " + "deleting" == "vm is deleting";
    case STOPPING => assert "vm is " + "stopping" == "vm is stopping";
    case STOPPED => assert "vm is " + "stopped" == "vm is stopped";
    case PAUSED => assert "vm is " + "paused" == "vm is paused";
    case DELETED_VM => assert "vm is " + "deleted" == "vm is deleted";
  }
}
