/** The parsed log as the external parser (cclib) hands it to the scripts,
    restricted to the attributes they read. cclib sets an attribute only when
    the log held the matching section, so every attribute is optional:
    reading an absent one raises `AttributeError` in the scripts. */
module CcData {
  import opened Results

  /** Cartesian position of one atom. */
  datatype Point = Point(x: real, y: real, z: real)

  /** One geometry: a position per atom, in atom order. */
  type Frame = seq<Point>

  /** `atomcoords`: a 3-D array (one frame per calculation step) or a 2-D
      array (a single frame). */
  datatype AtomCoords = Trajectory(frames: seq<Frame>) | Geometry(frame: Frame)

  /** The cclib attributes the three scripts read. */
  datatype Attribute = AtomCoordsAttr | NatomAttr | AtomnosAttr | EtEnergiesAttr | EtOscsAttr

  datatype ParsedLog = ParsedLog(
    atomcoords: Option<AtomCoords>,
    natom: Option<int>,
    atomnos: Option<seq<int>>,
    etenergies: Option<seq<real>>,
    etoscs: Option<seq<real>>,
    /** The text `writexyz()` produces; its content is not modelled. */
    xyz: string)

  /** A file a script writes: its name and its full content. */
  datatype OutputFile = OutputFile(name: string, content: string)
}
