/**
  The later backbone (base.h and base.cpp): the reserved command-file keywords,
  the delimiters, and `sendCMD(Param&)`, whose header promises to report the
  terminate keyword to the polling loop and to stay quiet on the silent keyword.
 */
module Base {
  import opened Wrappers
  import opened CText
  import opened Whalebone

  /** Program termination command. */
  const STOPSAIL: string := "Stop"
  /** Silent mode command. */
  const SLNTMODE: string := "Silent"
  /** Sensor data delimiter. */
  const SENSDLIM: char := ','

  /** `#`, `@` and `,` are pairwise distinct, so no delimiter can be read as another. */
  lemma DelimitersPairwiseDistinct()
    ensures CMDDLIM != DATDLIM && CMDDLIM != SENSDLIM && DATDLIM != SENSDLIM
  {
  }

  /** The two keywords differ and neither ends in `CMDDLIM`: terminate, silent and literal exclude each other. */
  lemma KeywordsExclusive()
    ensures STOPSAIL != SLNTMODE
    ensures STOPSAIL[|STOPSAIL| - 1] != CMDDLIM && SLNTMODE[|SLNTMODE| - 1] != CMDDLIM
  {
  }

  /** What the command file asks of one polling cycle. */
  datatype Directive = Terminate | Silent | SendLiteral(cmd: string) | SendDefault(cmd: string)

  /**
    The selector promised by the `sendCMD` header: the terminate keyword, then
    the silent keyword, then a token ending in `CMDDLIM` is sent as it is,
    and anything else (an empty token included) falls back to `dfltcmd`.
   */
  function Select(token: string, dfltcmd: string): (d: Directive)
    ensures d.Terminate? <==> token == STOPSAIL
    ensures d.Silent? <==> token == SLNTMODE
    ensures d.SendLiteral? <==> |token| > 0 && token[|token| - 1] == CMDDLIM
    ensures d.SendLiteral? ==> d.cmd == token
    ensures d.SendDefault? ==> d.cmd == dfltcmd
  {
    KeywordsExclusive();
    if token == STOPSAIL then Terminate
    else if token == SLNTMODE then Silent
    else if |token| > 0 && token[|token| - 1] == CMDDLIM then SendLiteral(token)
    else SendDefault(dfltcmd)
  }

  /**
    `sendCMD(Param&)` as base.cpp writes it: a `void` body that never looks for
    the keywords, so "Stop" and "Silent", which do not end in `CMDDLIM`, make it
    transmit the default command, and nothing tells the caller to stop. Any
    other token is sent as it is when it ends in `CMDDLIM`, and `dfltcmd` is
    sent otherwise; either overruns `mssg` when longer than `MAXCMD + 1`.
   */
  method SendCmdAsWritten(cmdFile: string, dfltcmd: string, sendResult: int) returns (t: Transmission)
    ensures var token := FirstToken(cmdFile);
      (token == STOPSAIL || token == SLNTMODE) && |dfltcmd| <= MAXCMD + 1 ==>
        t == Sent(Bytes(dfltcmd), false, sendResult != |dfltcmd|)
    ensures t.Sent? ==> t.mssg == Bytes(if t.literal then FirstToken(cmdFile) else dfltcmd)
    ensures t.Sent? ==> (t.sendError <==> sendResult != |t.mssg|)
    ensures t == EmptyToken <==> FirstToken(cmdFile) == ""
    ensures var token := FirstToken(cmdFile);
      t.Sent? ==> token != "" && (t.literal <==> token[|token| - 1] == CMDDLIM)
    ensures var token := FirstToken(cmdFile);
      t.Overrun? <==> token != "" && |if token[|token| - 1] == CMDDLIM then token else dfltcmd| > MAXCMD + 1
    ensures var token := FirstToken(cmdFile);
      t.Overrun? ==> t.size == |if token[|token| - 1] == CMDDLIM then token else dfltcmd|
  {
    KeywordsExclusive();
    t := Transmit(FirstToken(cmdFile), CMDDLIM, dfltcmd, sendResult);
  }

  /**
    `bool sendCMD(Param&)` as its header promises: true exactly when the command
    file holds `STOPSAIL`; nothing is sent on `STOPSAIL` or `SLNTMODE`; otherwise
    the file's token is sent when it ends in `CMDDLIM` and `dfltcmd`, with its own
    length, when it does not. The command file is only read.
   */
  method SendCmd(cmdFile: string, dfltcmd: string, sendResult: int) returns (stop: bool, sent: Option<Transmission>)
    ensures stop <==> FirstToken(cmdFile) == STOPSAIL
    ensures sent.None? <==> FirstToken(cmdFile) in {STOPSAIL, SLNTMODE}
    ensures sent.Some? ==> sent.value != EmptyToken
    ensures sent.Some? && sent.value.Sent? ==>
      sent.value.mssg == Bytes(Select(FirstToken(cmdFile), dfltcmd).cmd)
      && (sent.value.literal <==> Select(FirstToken(cmdFile), dfltcmd).SendLiteral?)
      && (sent.value.sendError <==> sendResult != |sent.value.mssg|)
    ensures sent.Some? ==> (sent.value.Overrun? <==> |Select(FirstToken(cmdFile), dfltcmd).cmd| > MAXCMD + 1)
    ensures sent.Some? && sent.value.Overrun? ==> sent.value.size == |Select(FirstToken(cmdFile), dfltcmd).cmd|
  {
    match Select(FirstToken(cmdFile), dfltcmd)
    case Terminate =>
      stop, sent := true, None;
    case Silent =>
      stop, sent := false, None;
    case SendLiteral(cmd) =>
      var t := Stage(cmd, true, sendResult);
      stop, sent := false, Some(t);
    case SendDefault(cmd) =>
      var t := Stage(cmd, false, sendResult);
      stop, sent := false, Some(t);
  }
}
