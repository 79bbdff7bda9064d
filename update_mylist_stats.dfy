/**
 * The AniDB "update MyList statistics" command: a deprecated command whose
 * identity is a constant, whose payload carries nothing, and whose processing
 * only writes a log line.
 */
module UpdateMyListStats {
  import opened Wrappers
  import opened Runtime

  /** The CommandID that `GenerateCommandID` assigns to every instance. */
  const CommandId: string := "CommandRequest_UpdateMyListStats"

  /** `CommandRequestPriority.Priority7`, this command's `DefaultPriority`. */
  const DefaultPriority: int := 7

  /** The log line `Process` writes (at information level). */
  const ProcessMessage: string := "CommandRequest_UpdateMyListStats is deprecated. Skipping!"

  datatype QueueStateEnum = UpdateMyListStatsState

  /** The queue-state structure the UI shows for a command. */
  datatype QueueStateStruct = QueueStateStruct(message: string, queueState: QueueStateEnum, extraParams: seq<string>)

  /** `PrettyDescription`: a fixed message with no parameters to substitute. */
  function PrettyDescription(): (d: QueueStateStruct)
    ensures d.extraParams == []
    ensures d.message == "Updating AniDB MyList Stats" && d.queueState == UpdateMyListStatsState
  {
    QueueStateStruct("Updating AniDB MyList Stats", UpdateMyListStatsState, [])
  }

  /**
   * `LoadFromCommandDetails`: false for a payload that is blank once trimmed;
   * otherwise the payload is loaded as an XML document, which either throws
   * (`wellFormedXml` false: the XML parser's verdict, a library call) or
   * succeeds, and then the answer is true.
   */
  function LoadFromCommandDetails(commandDetails: string, wellFormedXml: bool): (r: Result<bool, string>)
    ensures r == Ok(false) <==> Trim(commandDetails) == []
    ensures r == Ok(true) <==> Trim(commandDetails) != [] && wellFormedXml
    ensures r.Fail? <==> Trim(commandDetails) != [] && !wellFormedXml
  {
    if |Trim(commandDetails)| <= 0 then Ok(false)
    else if wellFormedXml then Ok(true)
    else Fail("XmlException")
  }

  /** A payload of white space only is never loaded. */
  lemma BlankDetailsNotLoaded(commandDetails: string, wellFormedXml: bool)
    requires forall i :: 0 <= i < |commandDetails| ==> IsWhiteSpace(commandDetails[i])
    ensures LoadFromCommandDetails(commandDetails, wellFormedXml) == Ok(false)
  {
    TrimOfBlank(commandDetails);
  }
}
