/** Registration of self-managed cron schedules and its strict validation (shared/cron-types.ts). */
module CronControl {
  import opened Results
  import opened Text
  import opened Json

  const OPEN_TAG := "<imcodes-cron-control "
  const CLOSE_TAG := "</imcodes-cron-control>"
  const SILENT_RESULT := "SILENT"

  datatype CompletionPolicy = Recurring | UntilComplete

  datatype Registration = Registration(contractId: string, version: int, scheduleId: string, constraints: Json)

  datatype CommandAction = CommandAction(command: string, selfManaged: Option<bool>, cronControl: Option<Registration>)

  datatype Reason =
    | MissingAuthoritativeBody
    | MissingAuthoritativeContract
    | UnknownContractVersion
    | TaskIdMismatch
    | TamperedContractRef
    | TamperedContractBody
    | LegacyContractMismatch

  datatype Accepted = Accepted(action: CommandAction, migrated: bool)

  type ActionResult = Result<Accepted, Reason>

  function LegacyConstraints(): Json {
    Obj([
      Field("updateSelf", Str("explicit_user_request_only")),
      Field("cancelRecurring", Str("explicit_user_request_only")),
      Field("cancelUntilComplete", Str("overall_goal_complete_only")),
      Field("silent", Str("first_non_empty_SILENT_stops_immediately_no_more_tools")),
      Field("network", Str("explicit_task_request_only")),
      Field("finalResponse", Str("exactly_one"))])
  }

  function CanonicalConstraints(): Json {
    Obj([
      Field("authorization", Str("user_authorized_scheduled_execution")),
      Field("executeTaskBody", Str("must_execute_authoritative_task_body_now")),
      Field("scope", Str("authoritative_task_body_only")),
      Field("secrets", Str("never_echo_secrets")),
      Field("updateSelf", Str("explicit_user_request_only")),
      Field("cancelRecurring", Str("explicit_user_request_only")),
      Field("cancelUntilComplete", Str("overall_goal_complete_only")),
      Field("silent", Str("first_non_empty_SILENT_stops_immediately_no_more_tools")),
      Field("network", Str("explicit_task_request_only")),
      Field("finalResponse", Str("exactly_one"))])
  }

  function Canonical(scheduleId: string): Registration {
    Registration("supervision_cron_control_v2", 2, scheduleId, CanonicalConstraints())
  }

  /** The exact first version, retained solely for migration. */
  function LegacyV1(scheduleId: string): Registration {
    Registration("supervision_cron_control_v1", 1, scheduleId, LegacyConstraints())
  }

  function PolicyName(p: CompletionPolicy): string {
    if p.UntilComplete? then "until_complete" else "recurring"
  }

  /** The control block that was appended to a command before registrations existed, without its opening tag. */
  function LegacyBlockTail(scheduleId: string, policy: CompletionPolicy): string {
    "id=" + (Quote(scheduleId) + (" completion-policy=" + (Quote(PolicyName(policy)) + BlockRules(policy))))
  }

  /** The rest of it, which depends on the policy only. */
  function BlockRules(policy: CompletionPolicy): string {
    ">\nUse cron_update_self to change this task only when the user explicitly asks.\n"
    + (if policy.UntilComplete?
       then "This schedule repeats until its overall goal is complete. Call cron_cancel_self with this id only when "
            + "the overall goal\U{2014}not merely this occurrence\U{2014}is complete."
       else "Recurring task: complete this run and keep it scheduled. Cancel only on an explicit user request; "
            + "force=true is required.")
    + "\nExecute only the operations explicitly requested above. Do not add web fetches, curl requests, or other "
    + "network checks unless the task explicitly requests them.\nIf an explicitly requested tool returns "
    + SILENT_RESULT
    + " as its first non-empty line, stop immediately, call no more tools, and finish this occurrence with exactly "
    + SILENT_RESULT + ".\nAlways produce one final response for this occurrence.\n" + CLOSE_TAG
  }

  /** What the control protocol fixes for one schedule: the tag that opens a control block, the legacy
      block as it was appended to commands, and the current and the first registration. */
  datatype Protocol = Protocol(openTag: string, suffix: string, canonical: Registration, legacy: Registration) {
    ghost predicate WellFormed() {
      && OccursAt(suffix, openTag, 2)
      && canonical.contractId != legacy.contractId && canonical.scheduleId == legacy.scheduleId
    }
  }

  function ProtocolFor(scheduleId: string, policy: CompletionPolicy): Protocol {
    Protocol(OPEN_TAG, "\n\n" + (OPEN_TAG + LegacyBlockTail(scheduleId, policy)), Canonical(scheduleId),
        LegacyV1(scheduleId))
  }

  lemma ProtocolIsWellFormed(scheduleId: string, policy: CompletionPolicy)
    ensures ProtocolFor(scheduleId, policy).WellFormed()
    ensures var p := ProtocolFor(scheduleId, policy);
            p.canonical.scheduleId == scheduleId && p.canonical.version == 2 && p.legacy.version == 1
  {
    hide LegacyBlockTail, LegacyConstraints, CanonicalConstraints;
    TagAfterNewlines(OPEN_TAG, LegacyBlockTail(scheduleId, policy));
    assert Canonical(scheduleId).contractId[|Canonical(scheduleId).contractId| - 1] == '2';
  }

  /** The legacy block names its schedule and policy: no two have the same one. */
  lemma BlockNamesSchedule(a: string, x: CompletionPolicy, b: string, y: CompletionPolicy)
    ensures ProtocolFor(a, x).suffix == ProtocolFor(b, y).suffix <==> a == b && x == y
  {
    hide Quote, PolicyName, BlockRules;
    if ProtocolFor(a, x).suffix == ProtocolFor(b, y).suffix {
      SameBlock(OPEN_TAG, LegacyBlockTail(a, x), LegacyBlockTail(b, y));
      var policy, v, w := " completion-policy=", BlockRules(x), BlockRules(y);
      SameTail("id=",
               Quote(a) + (policy + (Quote(PolicyName(x)) + v)),
               Quote(b) + (policy + (Quote(PolicyName(y)) + w)));
      hide *;
      QuotesSplit(a, policy + (Quote(PolicyName(x)) + v), b, policy + (Quote(PolicyName(y)) + w));
      SameTail(policy, Quote(PolicyName(x)) + v, Quote(PolicyName(y)) + w);
      QuotesSplit(PolicyName(x), v, PolicyName(y), w);
      PolicyNamesDiffer(x, y);
    }
  }

  lemma SameBlock(tag: string, x: string, y: string)
    requires "\n\n" + (tag + x) == "\n\n" + (tag + y)
    ensures x == y
  {
    SameTail("\n\n", tag + x, tag + y);
    SameTail(tag, x, y);
  }

  lemma SameTail(front: string, x: string, y: string)
    requires front + x == front + y
    ensures x == y
  {
    assert (front + x)[|front|..] == x && (front + y)[|front|..] == y;
  }

  lemma PolicyNamesDiffer(x: CompletionPolicy, y: CompletionPolicy)
    requires PolicyName(x) == PolicyName(y)
    ensures x == y
  {
    assert PolicyName(x)[0] == PolicyName(y)[0];
  }

  lemma TagAfterNewlines(tag: string, rest: string)
    ensures OccursAt("\n\n" + (tag + rest), tag, 2)
  {
    var s := "\n\n" + (tag + rest);
    assert s[2..] == tag + rest;
    assert s[2..2 + |tag|] == tag;
  }

  // ---------------------------------------------------------------- validation and registration

  function ValidateRegistration(r: Option<Registration>, canonical: Registration): Option<Reason> {
    if r.None? then Some(MissingAuthoritativeContract)
    else if r.value.contractId != canonical.contractId then Some(TamperedContractRef)
    else if r.value.version != canonical.version then Some(UnknownContractVersion)
    else if r.value.scheduleId != canonical.scheduleId then Some(TaskIdMismatch)
    else if Stringify(r.value.constraints) != Stringify(canonical.constraints) then Some(TamperedContractBody)
    else None
  }

  predicate IsExactLegacyV1(r: Registration, legacy: Registration) {
    r.contractId == legacy.contractId && r.version == legacy.version && r.scheduleId == legacy.scheduleId
    && Stringify(r.constraints) == Stringify(legacy.constraints)
  }

  /** `validateRegisteredCronControlAction`. */
  function Validate(action: CommandAction, p: Protocol): ActionResult {
    if Trim(action.command) == "" then Err(MissingAuthoritativeBody)
    else
      var reason := ValidateRegistration(action.cronControl, p.canonical);
      if reason.Some? then Err(reason.value) else Ok(Accepted(action, false))
  }

  /** `registerCronControlAction`. */
  function Register(action: CommandAction, p: Protocol): ActionResult {
    var legacy := EndsWith(action.command, p.suffix);
    if !legacy && Includes(action.command, p.openTag) then Err(LegacyContractMismatch)
    else
      var command := if legacy then action.command[..|action.command| - |p.suffix|] else action.command;
      if Trim(command) == "" then Err(MissingAuthoritativeBody)
      else if action.cronControl.None? || IsExactLegacyV1(action.cronControl.value, p.legacy) then
        Ok(Accepted(action.(command := command, cronControl := Some(p.canonical)), true))
      else
        var reason := ValidateRegistration(action.cronControl, p.canonical);
        if reason.Some? then Err(reason.value)
        else Ok(Accepted(action.(command := command), command != action.command))
  }

  // ---------------------------------------------------------------- what registration guarantees

  /** Serialised constraints are compared, which is comparing the constraints. */
  lemma SameConstraints(a: Json, b: Json)
    ensures Stringify(a) == Stringify(b) <==> a == b
  {
    ParseStringify(a);
    ParseStringify(b);
  }

  ghost predicate Blank(s: string) {
    forall i :: 0 <= i < |s| ==> IsJsSpace(s[i])
  }

  /** What remains of a command: without the exact block at its end, or as it is when it holds no control block. */
  ghost predicate Remains(command: string, p: Protocol, bare: string) {
    command == bare + p.suffix || (command == bare && !Contains(command, p.openTag))
  }

  lemma RemainsIs(command: string, p: Protocol, bare: string)
    requires p.WellFormed()
    ensures Remains(command, p, bare) <==>
            && (EndsWith(command, p.suffix) || !Includes(command, p.openTag))
            && bare == if EndsWith(command, p.suffix) then command[..|command| - |p.suffix|] else command
  {
    StripSuffix(command, p.suffix);
    if EndsWith(command, p.suffix) {
      SuffixHasTag(command, p);
      assert Contains(command, p.openTag);
    }
    if command == bare + p.suffix {
      assert command[|command| - |p.suffix|..] == p.suffix && command[..|command| - |p.suffix|] == bare;
    }
  }

  /** The registrations that may stand in an action: none, exactly the first version, exactly the current one. */
  ghost predicate Permitted(r: Option<Registration>, p: Protocol) {
    r.None? || r.value == p.legacy || r.value == p.canonical
  }

  /** Why a registration that is not permitted is refused. */
  function Flaw(r: Registration, canonical: Registration): Reason {
    if r.contractId != canonical.contractId then TamperedContractRef
    else if r.version != canonical.version then UnknownContractVersion
    else if r.scheduleId != canonical.scheduleId then TaskIdMismatch
    else TamperedContractBody
  }

  /** The whole of registration. It succeeds exactly when the command ends with the exact legacy block or holds no
      control block, what remains of it is not blank, and the action's registration is permitted; the result is the
      action with what remains and the current registration, and it is called migrated exactly when that differs from
      the action. Otherwise the first of these to fail gives the reason. */
  lemma RegisterIff(action: CommandAction, p: Protocol)
    requires p.WellFormed()
    ensures Register(action, p).Ok? <==>
            exists bare :: Remains(action.command, p, bare) && !Blank(bare) && Permitted(action.cronControl, p)
    ensures (forall bare :: !Remains(action.command, p, bare)) ==> Register(action, p) == Err(LegacyContractMismatch)
    ensures forall bare :: Remains(action.command, p, bare) ==>
              var out := CommandAction(bare, action.selfManaged, Some(p.canonical));
              Register(action, p)
              == if Blank(bare) then Err(MissingAuthoritativeBody)
                 else if Permitted(action.cronControl, p) then Ok(Accepted(out, out != action))
                 else Err(Flaw(action.cronControl.value, p.canonical))
  {
    var command := action.command;
    var legacy := EndsWith(command, p.suffix);
    var readable := legacy || !Includes(command, p.openTag);
    var bare := if legacy then command[..|command| - |p.suffix|] else command;
    forall other
      ensures Remains(command, p, other) <==> readable && other == bare
    {
      RemainsIs(command, p, other);
    }
    assert p.legacy != p.canonical;
    RegisterBare(action, p, bare);
    hide *;
    assert (exists other :: Remains(command, p, other)) <==> Remains(command, p, bare);
  }

  lemma RegisterBare(action: CommandAction, p: Protocol, bare: string)
    requires p.legacy != p.canonical
    requires bare == if EndsWith(action.command, p.suffix) then action.command[..|action.command| - |p.suffix|]
                     else action.command
    ensures var out := CommandAction(bare, action.selfManaged, Some(p.canonical));
      Register(action, p)
      == if !EndsWith(action.command, p.suffix) && Includes(action.command, p.openTag) then Err(LegacyContractMismatch)
         else if Blank(bare) then Err(MissingAuthoritativeBody)
         else if Permitted(action.cronControl, p) then Ok(Accepted(out, out != action))
         else Err(Flaw(action.cronControl.value, p.canonical))
  {
    TrimBlank(bare);
    assert Trim(bare) == "" <==> Blank(bare);
    Judged(action.cronControl, p);
    var r := action.cronControl;
    assert Permitted(r, p) <==> r.None? || r.value == p.legacy || r.value == p.canonical;
    hide *;
    RegisterStep(action, p, bare);
    if r.None? || r.value == p.legacy {
      assert CommandAction(bare, action.selfManaged, Some(p.canonical)) != action;
    }
  }

  /** One unfolding of `Register`. */
  lemma RegisterStep(action: CommandAction, p: Protocol, bare: string)
    requires bare == if EndsWith(action.command, p.suffix) then action.command[..|action.command| - |p.suffix|]
                     else action.command
    ensures Register(action, p)
      == if !EndsWith(action.command, p.suffix) && Includes(action.command, p.openTag) then Err(LegacyContractMismatch)
         else if Trim(bare) == "" then Err(MissingAuthoritativeBody)
         else if action.cronControl.None? || IsExactLegacyV1(action.cronControl.value, p.legacy) then
           Ok(Accepted(CommandAction(bare, action.selfManaged, Some(p.canonical)), true))
         else
           var reason := ValidateRegistration(action.cronControl, p.canonical);
           if reason.Some? then Err(reason.value)
           else Ok(Accepted(CommandAction(bare, action.selfManaged, action.cronControl), bare != action.command))
  {
    hide Trim, Includes, EndsWith, IsExactLegacyV1, ValidateRegistration;
  }

  /** How a registration is judged. */
  lemma Judged(r: Option<Registration>, p: Protocol)
    ensures r.Some? ==> (IsExactLegacyV1(r.value, p.legacy) <==> r.value == p.legacy)
    ensures ValidateRegistration(r, p.canonical)
            == if r.None? then Some(MissingAuthoritativeContract)
               else if r.value == p.canonical then None
               else Some(Flaw(r.value, p.canonical))
  {
    if r.Some? {
      SameConstraints(r.value.constraints, p.canonical.constraints);
      SameConstraints(r.value.constraints, p.legacy.constraints);
    }
    hide Stringify;
  }

  /** Strict validation accepts exactly the actions with a command that is not blank and the current registration. */
  lemma ValidateIff(action: CommandAction, p: Protocol)
    ensures Validate(action, p)
            == if Blank(action.command) then Err(MissingAuthoritativeBody)
               else if action.cronControl.None? then Err(MissingAuthoritativeContract)
               else if action.cronControl == Some(p.canonical) then Ok(Accepted(action, false))
               else Err(Flaw(action.cronControl.value, p.canonical))
  {
    TrimBlank(action.command);
    assert Trim(action.command) == "" <==> Blank(action.command);
    Judged(action.cronControl, p);
    hide Trim, Blank, ValidateRegistration, Flaw;
  }

  /** A successful registration passes strict validation as it stands, is bound to this schedule, and
      never replaces a registration that is neither absent nor the exact first version nor already canonical. */
  lemma RegisteredIsValid(action: CommandAction, p: Protocol, out: CommandAction, migrated: bool)
    requires p.WellFormed() && Register(action, p) == Ok(Accepted(out, migrated))
    ensures Validate(out, p) == Ok(Accepted(out, false))
    ensures out.cronControl == Some(p.canonical) && out.selfManaged == action.selfManaged
    ensures action.cronControl.None? || action.cronControl.value == p.canonical || action.cronControl.value == p.legacy
  {
    hide Trim, Stringify, OccursAt, EndsWith;
    if action.cronControl.Some? {
      SameConstraints(action.cronControl.value.constraints, p.canonical.constraints);
      SameConstraints(action.cronControl.value.constraints, p.legacy.constraints);
    }
  }

  /** A successful registration keeps the command up to one legacy block, and says truly whether it changed anything. */
  lemma RegisteredCommand(action: CommandAction, p: Protocol, out: CommandAction, migrated: bool)
    requires p.WellFormed() && Register(action, p) == Ok(Accepted(out, migrated))
    ensures action.command == out.command || action.command == out.command + p.suffix
    ensures action.command == out.command ==> !Contains(out.command, p.openTag)
    ensures migrated <==> out != action
  {
    assert |p.suffix| >= 2;
    RegisterIff(action, p);
    hide Register, Blank, Permitted, Contains, Flaw;
    var bare :| Remains(action.command, p, bare) && !Blank(bare) && Permitted(action.cronControl, p);
  }

  lemma StripSuffix(c: string, s: string)
    ensures EndsWith(c, s) ==> |s| <= |c| && c == c[..|c| - |s|] + s
  {
  }

  lemma SuffixHasTag(c: string, p: Protocol)
    requires p.WellFormed() && EndsWith(c, p.suffix)
    ensures OccursAt(c, p.openTag, |c| - |p.suffix| + 2)
  {
    var at := |c| - |p.suffix|;
    assert c[at + 2..at + 2 + |p.openTag|] == c[at..][2..2 + |p.openTag|];
  }

  /** Registering a registered action again returns it unmigrated exactly when no control block is left
      in it; otherwise it drops one more exact block, so the command is strictly shorter, or refuses. */
  lemma RegisterAgain(action: CommandAction, p: Protocol, out: CommandAction, migrated: bool)
    requires p.WellFormed() && Register(action, p) == Ok(Accepted(out, migrated))
    ensures Register(out, p) == Ok(Accepted(out, false)) <==> !Contains(out.command, p.openTag)
    ensures Register(out, p).Ok? && Register(out, p).value.action != out ==>
              var next := Register(out, p).value;
              next.migrated && next.action == out.(command := next.action.command)
              && out.command == next.action.command + p.suffix && |next.action.command| < |out.command|
  {
    hide Trim, Stringify, OccursAt;
    RegisteredIsValid(action, p, out, migrated);
    RegisteredCommand(action, p, out, migrated);
    if EndsWith(out.command, p.suffix) {
      SuffixHasTag(out.command, p);
    }
    if Register(out, p).Ok? {
      RegisteredIsValid(out, p, Register(out, p).value.action, Register(out, p).value.migrated);
      RegisteredCommand(out, p, Register(out, p).value.action, Register(out, p).value.migrated);
    } else if !Contains(out.command, p.openTag) {
      SameConstraints(p.canonical.constraints, p.canonical.constraints);
    }
  }

  /** With at most one control block in the command, registration is idempotent. */
  lemma RegisterIdempotent(action: CommandAction, p: Protocol, out: CommandAction, migrated: bool)
    requires p.WellFormed() && Register(action, p) == Ok(Accepted(out, migrated))
    requires forall i, j :: OccursAt(action.command, p.openTag, i) && OccursAt(action.command, p.openTag, j) ==> i == j
    ensures Register(out, p) == Ok(Accepted(out, false))
  {
    hide Trim, Stringify, Register;
    RegisterAgain(action, p, out, migrated);
    RegisteredIsValid(action, p, out, migrated);
    RegisteredCommand(action, p, out, migrated);
    if Contains(out.command, p.openTag) {
      var i :| OccursAt(out.command, p.openTag, i);
      assert EndsWith(action.command, p.suffix);
      assert OccursAt(action.command, p.openTag, i) by {
        assert action.command[i..i + |p.openTag|] == out.command[i..i + |p.openTag|];
      }
      SuffixHasTag(action.command, p);
    }
  }

  /** Registration repeated until it changes nothing or refuses; it always ends. */
  function Settle(action: CommandAction, p: Protocol): (r: Result<CommandAction, Reason>)
    requires p.WellFormed()
    ensures r.Ok? ==> Register(r.value, p) == Ok(Accepted(r.value, false)) && !Contains(r.value.command, p.openTag)
    decreases if action.cronControl == Some(p.canonical) then 0 else 1, |action.command|
  {
    var step := Register(action, p);
    if step.Err? then Err(step.error)
    else
      RegisteredIsValid(action, p, step.value.action, step.value.migrated);
      RegisteredCommand(action, p, step.value.action, step.value.migrated);
      if step.value.action == action then
        RegisterAgain(action, p, step.value.action, step.value.migrated);
        Ok(action)
      else
        Settle(step.value.action, p)
  }

  function Repeat(s: string, n: nat): string {
    if n == 0 then "" else Repeat(s, n - 1) + s
  }

  /** All that settling ever removes from a command is exact legacy blocks at its end. */
  lemma {:induction false} SettleStripsBlocks(action: CommandAction, p: Protocol) returns (n: nat)
    requires p.WellFormed() && Settle(action, p).Ok?
    ensures action.command == Settle(action, p).value.command + Repeat(p.suffix, n)
    decreases if action.cronControl == Some(p.canonical) then 0 else 1, |action.command|
  {
    var out := SettleStep(action, p);
    hide *;
    if out == action {
      n := 0;
      RepeatZero(action.command, p.suffix);
    } else {
      n := SettleStripsBlocks(out, p);
      if action.command != out.command {
        RepeatMore(action.command, out.command, Settle(out, p).value.command, p.suffix, n);
        n := n + 1;
      }
    }
  }

  lemma RepeatZero(base: string, s: string)
    ensures base == base + Repeat(s, 0)
  {
  }

  lemma RepeatMore(longer: string, shorter: string, base: string, s: string, n: nat)
    requires longer == shorter + s && shorter == base + Repeat(s, n)
    ensures longer == base + Repeat(s, n + 1)
  {
  }

  /** One round of settling. */
  lemma SettleStep(action: CommandAction, p: Protocol) returns (out: CommandAction)
    requires p.WellFormed() && Settle(action, p).Ok?
    ensures action.command == out.command || action.command == out.command + p.suffix
    ensures out == action ==> Settle(action, p).value == action
    ensures out != action ==> Settle(action, p) == Settle(out, p)
    ensures out != action ==> out.cronControl == Some(p.canonical)
                              && (action.cronControl == Some(p.canonical) ==> |out.command| < |action.command|)
  {
    hide Trim, Stringify, OccursAt;
    var step := Register(action, p).value;
    out := step.action;
    RegisteredIsValid(action, p, out, step.migrated);
    RegisteredCommand(action, p, out, step.migrated);
  }
}
