/**
 * The two validators of the component. Each runs Laravel's `required` rule
 * with a fixed message and then a rule object whose body is not part of this
 * model, and reports the first message of the attribute that failed.
 */
module Validation {
  import opened Prelude
  import opened Php

  /** A validation rule object: its `passes` test and its `message()`. */
  datatype Rule = Rule(passes: string -> bool, message: string)

  datatype Verdict = Passed | Failed(message: string)

  const SELECT_A_DISK := "Select a disk"
  const SELECT_A_FILE := "Select a file"

  /** Laravel's `required`: the value is not null and does not trim to the empty string. */
  predicate Present(value: Option<string>) {
    value.Some? && !TrimsToEmpty(value.value)
  }

  /**
   * `['required', rule]` with a custom required message. When `required` fails
   * its message is the attribute's first, whatever the rule says; otherwise the
   * rule alone decides.
   */
  function RequiredThen(value: Option<string>, requiredMessage: string, rule: Rule): (v: Verdict)
    ensures v.Passed? <==> Present(value) && rule.passes(value.value)
    ensures !Present(value) ==> v == Failed(requiredMessage)
    ensures Present(value) && !rule.passes(value.value) ==> v == Failed(rule.message)
  {
    if !Present(value) then Failed(requiredMessage)
    else if !rule.passes(value.value) then Failed(rule.message)
    else Passed
  }

  /** `validateActiveDisk`: the active disk is required ("Select a disk") and must satisfy the `BackupDisk` rule. */
  function ValidateActiveDisk(activeDisk: Option<string>, backupDisk: Rule): (v: Verdict)
    ensures activeDisk == None || activeDisk == Some("") ==> v == Failed(SELECT_A_DISK)
    ensures v.Passed? <==> Present(activeDisk) && backupDisk.passes(activeDisk.value)
    ensures Present(activeDisk) && !backupDisk.passes(activeDisk.value) ==> v == Failed(backupDisk.message)
  {
    RequiredThen(activeDisk, SELECT_A_DISK, backupDisk)
  }

  /** `validateFilePath`: the path is required ("Select a file") and must satisfy the `PathToZip` rule. */
  function ValidateFilePath(filePath: string, pathToZip: Rule): (v: Verdict)
    ensures filePath == "" ==> v == Failed(SELECT_A_FILE)
    ensures v.Passed? <==> !TrimsToEmpty(filePath) && pathToZip.passes(filePath)
    ensures !TrimsToEmpty(filePath) && !pathToZip.passes(filePath) ==> v == Failed(pathToZip.message)
  {
    RequiredThen(Some(filePath), SELECT_A_FILE, pathToZip)
  }

  /**
   * A disk name made only of blanks fails as "Select a disk", while "0", which PHP
   * treats as false elsewhere in the component, is left to the `BackupDisk` rule.
   */
  lemma BlankAndZeroDisks(backupDisk: Rule, name: string)
    requires name != "" && TrimsToEmpty(name)
    ensures ValidateActiveDisk(Some(name), backupDisk) == Failed(SELECT_A_DISK)
    ensures ValidateActiveDisk(Some("0"), backupDisk) == if backupDisk.passes("0") then Passed else Failed(backupDisk.message)
  {
    assert !Trimmable("0"[0]);
  }
}
