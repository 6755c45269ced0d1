/** The target system of a Milo file (core/grim/src/system.rs): the platform guessed from the
  * file's extension, the byte order and version guessed from the archive, and the revision and
  * generation derived from them. */
module System {
  import opened Wrappers
  import opened Ints
  import opened Archive

  datatype Platform = PS2 | PS3 | Wii | X360

  datatype SystemInfo = SystemInfo(version: U32, platform: Platform, endian: Endian)

  /** `SystemInfo::default`: Rock Band 1 on the Xbox 360. */
  const DEFAULT_INFO: SystemInfo := SystemInfo(25, X360, Big)

  /** `guess_platform`, given the extension of the path (`None` when the path has none). */
  function GuessPlatform(extension: Option<string>): (p: Platform)
    ensures p == PS2 <==> extension.Some? && IsPs2Extension(extension.value)
    ensures p == PS3 <==> extension == Some("milo_ps3")
    ensures p == Wii <==> extension == Some("milo_wii")
    ensures extension.None? ==> p == X360
  {
    match extension
    case None => X360
    case Some(ext) =>
      if ext == "milo_ps2" then PS2
      else if ext == "milo_ps3" then PS3
      else if ext == "milo_wii" then Wii
      else if ext == "milo_xbox" then X360
      else if ext == "rnd" then PS2
      else if ext == "rnd_ps2" then PS2
      else if ext == "gh" then PS2
      else if ext == "gz" then PS2
      else X360
  }

  /** The extensions that name a PlayStation 2 file. */
  predicate IsPs2Extension(ext: string)
  {
    ext == "milo_ps2" || ext == "rnd" || ext == "rnd_ps2" || ext == "gh" || ext == "gz"
  }

  /** The `milo_*` extension of each platform. */
  function MiloExtension(p: Platform): string
  {
    match p
    case PS2 => "milo_ps2"
    case PS3 => "milo_ps3"
    case Wii => "milo_wii"
    case X360 => "milo_xbox"
  }

  /** Each platform's `milo_*` extension is guessed back as that platform. */
  lemma GuessMiloExtension(p: Platform)
    ensures GuessPlatform(Some(MiloExtension(p))) == p
  {
  }

  /** An extension outside the table is taken for the Xbox 360. */
  lemma UnknownExtensionIsX360(ext: string)
    requires !IsPs2Extension(ext) && ext != "milo_ps3" && ext != "milo_wii"
    ensures GuessPlatform(Some(ext)) == X360
  {
  }

  /** `guess_system_info`, over the archive's bytes and the path's extension. */
  function GuessSystemInfo(milo: MiloArchive, extension: Option<string>): (info: SystemInfo)
    ensures info.platform == GuessPlatform(extension)
    ensures info.platform in {X360, Wii} ==>
      (if |milo.data| >= 4
       then (info.endian, info.version) == GuessEndianVersion(milo.data).value
       else info.endian == Big && info.version == 25)
    ensures info.platform == PS2 ==>
      info.endian == Little
      && info.version == (if |milo.data| >= 4 then DecodeUnsigned(Little, milo.data[..4]) else 24)
    ensures info.platform == PS3 ==>
      info.endian == Big
      && info.version == (if |milo.data| >= 4 then DecodeUnsigned(Big, milo.data[..4]) else 25)
  {
    var platform := GuessPlatform(extension);
    if platform == X360 || platform == Wii then
      match GuessEndianVersion(milo.data)
      case Some((e, v)) => SystemInfo(v, platform, e)
      case None => SystemInfo(25, platform, Big)
    else if platform == PS2 then
      SystemInfo(UnwrapOr(GetVersion(milo.data, Little), 24), platform, Little)
    else
      SystemInfo(UnwrapOr(GetVersion(milo.data, Big), 25), platform, Big)
  }

  /** `Option::unwrap_or`. */
  function UnwrapOr(o: Option<U32>, default: U32): (v: U32)
    ensures o.Some? ==> v == o.value
    ensures o.None? ==> v == default
  {
    match o
    case Some(x) => x
    case None => default
  }

  /** `is_next_gen`. */
  function IsNextGen(info: SystemInfo): (b: bool)
    ensures b <==> info.platform == PS3 || info.platform == X360
  {
    match info.platform
    case PS3 | X360 => true
    case _ => false
  }

  /** `get_revision`. */
  function GetRevision(info: SystemInfo): (r: U32)
    ensures r <= 2
    ensures r == 0 <==> info.version <= 24
    ensures r == 1 <==> info.version == 25 && info.platform == X360 && info.endian == Little
  {
    if info.version <= 24 then 0
    else if info.version == 25 && info.platform == X360 && info.endian == Little then 1
    else 2
  }

  /** A PS2 archive too short to hold a version is taken for revision 0 (Guitar Hero 2). */
  lemma ShortPs2IsRevisionZero(milo: MiloArchive, extension: Option<string>)
    requires GuessPlatform(extension) == PS2 && |milo.data| < 4
    ensures GetRevision(GuessSystemInfo(milo, extension)) == 0
  {
  }

  /** Revision 1 is guessed only for an Xbox 360 archive whose first four bytes read 25 in
    * little-endian order (and more than 32 in big-endian order). */
  lemma RevisionOneIsLittleX360(milo: MiloArchive, extension: Option<string>)
    requires GetRevision(GuessSystemInfo(milo, extension)) == 1
    ensures GuessPlatform(extension) == X360 && |milo.data| >= 4
    ensures DecodeUnsigned(Big, milo.data[..4]) > 32
    ensures DecodeUnsigned(Little, milo.data[..4]) == 25
  {
  }

  /** The default system is Rock Band 1's: revision 2 on a next-generation console. */
  lemma DefaultInfo()
    ensures GetRevision(DEFAULT_INFO) == 2 && IsNextGen(DEFAULT_INFO)
  {
  }
}
