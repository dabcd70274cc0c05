/** The keyboard-enhancement flags `main` asks the terminal for, assembled from
    the command-line options before the input loop starts. */
module Enhancement {

  /** The command-line options, as parsed: one switch each. */
  datatype Options = Options(
    disambiguate: bool,
    allEscape: bool,
    alternateKeys: bool,
    eventTypes: bool,
    allKitty: bool,
    bracketedPaste: bool,
    mouse: bool,
    focus: bool)

  /** The four progressive-enhancement flags the options can request. */
  datatype Flag =
    | DisambiguateEscapeCodes
    | ReportAllKeysAsEscapeCodes
    | ReportAlternateKeys
    | ReportEventTypes

  const AllFlags: set<Flag> :=
    {DisambiguateEscapeCodes, ReportAllKeysAsEscapeCodes, ReportAlternateKeys, ReportEventTypes}

  /** The option that requests a flag on its own. */
  function OwnOption(o: Options, f: Flag): bool
  {
    match f
    case DisambiguateEscapeCodes => o.disambiguate
    case ReportAllKeysAsEscapeCodes => o.allEscape
    case ReportAlternateKeys => o.alternateKeys
    case ReportEventTypes => o.eventTypes
  }

  /** Start from the empty set and OR in each flag whose own option or
      `all_kitty` is set. */
  method EnhancementFlags(o: Options) returns (flags: set<Flag>)
    ensures forall f :: f in flags <==> OwnOption(o, f) || o.allKitty
    ensures flags <= AllFlags
    ensures o.allKitty ==> flags == AllFlags
    ensures !o.disambiguate && !o.allEscape && !o.alternateKeys && !o.eventTypes && !o.allKitty ==>
      flags == {}
  {
    flags := {};
    if o.disambiguate || o.allKitty {
      flags := flags + {DisambiguateEscapeCodes};
    }
    if o.allEscape || o.allKitty {
      flags := flags + {ReportAllKeysAsEscapeCodes};
    }
    if o.alternateKeys || o.allKitty {
      flags := flags + {ReportAlternateKeys};
    }
    if o.eventTypes || o.allKitty {
      flags := flags + {ReportEventTypes};
    }
    forall f ensures f in flags <==> OwnOption(o, f) || o.allKitty {
      match f
      case DisambiguateEscapeCodes =>
      case ReportAllKeysAsEscapeCodes =>
      case ReportAlternateKeys =>
      case ReportEventTypes =>
    }
  }
}
