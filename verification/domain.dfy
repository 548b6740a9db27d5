/** The records the widget works on. The type declarations themselves live
    in `src/types.ts` and `src/constants.ts`, which are not part of this
    model; the shapes below are the ones `src/utils.ts` relies on. */
module Domain {
  import opened Wrappers

  /** A catalog entry: canonical id (`RU-xx`), display name, and the code of
      the federal district it belongs to (`info`, e.g. "ЦФО"). */
  datatype Region = Region(id: string, name: string, info: string)

  /** The `regionId` field of a representative: absent, one string, or a
      list of strings. Each string is either a region id (with `RU-` or
      `RF-` prefix) or a federal-district code. */
  datatype RegionRef =
    | Unassigned
    | Single(id: string)
    | Several(ids: seq<string>)

  /** A staff record as supplied by the host page. */
  datatype Representative = Representative(
    id: int,
    name: string,
    position: string,
    phone: Option<string>,
    email: Option<string>,
    regionId: RegionRef,
    activity: Option<seq<string>>
  )
}
