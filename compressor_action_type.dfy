/** The action a run performs. The enum itself is not part of this model;
    its three values are those used by Archiver.App/ApplicationParameters.cs
    and Archiver.App/ApplicationParametersHelper.cs. */
module CompressorActionTypes {
  datatype CompressorActionType = Unknown | Compress | Decompress
}
