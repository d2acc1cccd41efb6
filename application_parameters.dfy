/** Launch parameters and their builder (Archiver.App/ApplicationParameters.cs). */
module AppParameters {
  import opened CompressorActionTypes

  /** A C# `string` reference, which may be `null`. */
  datatype Option<+T> = None | Some(value: T)

  /** `ApplicationParameters`: its property setters are private, so a built
      value never changes afterwards. */
  datatype ApplicationParameters = ApplicationParameters(
    sourceFilePath: Option<string>,
    targetFilePath: Option<string>,
    actionType: CompressorActionType)

  /** `ApplicationParameters.Builder`: three fields and fluent setters that
      return the builder itself. */
  class Builder {
    var sourceFilePath: Option<string>
    var targetFilePath: Option<string>
    var actionType: CompressorActionType

    /** A fresh builder: no paths yet and an `Unknown` action type. */
    constructor()
      ensures sourceFilePath == None && targetFilePath == None && actionType == Unknown
    {
      sourceFilePath, targetFilePath, actionType := None, None, Unknown;
    }

    method SetSourceFilePath(path: Option<string>) returns (self: Builder)
      modifies this
      ensures self == this
      ensures sourceFilePath == path
      ensures targetFilePath == old(targetFilePath) && actionType == old(actionType)
    {
      sourceFilePath := path;
      self := this;
    }

    method SetTargetFilePath(path: Option<string>) returns (self: Builder)
      modifies this
      ensures self == this
      ensures targetFilePath == path
      ensures sourceFilePath == old(sourceFilePath) && actionType == old(actionType)
    {
      targetFilePath := path;
      self := this;
    }

    method SetCompressorActionType(compressorActionType: CompressorActionType) returns (self: Builder)
      modifies this
      ensures self == this
      ensures actionType == compressorActionType
      ensures sourceFilePath == old(sourceFilePath) && targetFilePath == old(targetFilePath)
    {
      actionType := compressorActionType;
      self := this;
    }

    /** `Build`: a new parameters object holding the builder's current values. */
    function Build(): (p: ApplicationParameters)
      reads this
      ensures p.sourceFilePath == sourceFilePath && p.targetFilePath == targetFilePath
      ensures p.actionType == actionType
    {
      ApplicationParameters(sourceFilePath, targetFilePath, actionType)
    }
  }

  /** Building, then calling a setter again, then building once more: the
      first result keeps the old value, the second has the newer one, and the
      other two values are shared. */
  method RebuildAfterSet(builder: Builder, path: Option<string>)
    returns (first: ApplicationParameters, second: ApplicationParameters)
    modifies builder
    ensures first == old(builder.Build())
    ensures second.sourceFilePath == path
    ensures second.targetFilePath == first.targetFilePath && second.actionType == first.actionType
  {
    first := builder.Build();
    var same := builder.SetSourceFilePath(path);
    second := same.Build();
  }
}
