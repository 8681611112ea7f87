/** The image alias map kept in the page's `wordpress` property
    (`wpImageId`), and `processImages`. */
module Images {

  import opened Values

  /** One entry of the alias map: a stable image alias and the id and URL the
      image has on the publishing side. */
  datatype ImageEntry = ImageEntry(alias: string, id: Scalar, url: string)

  /** The alias map in PHP array order, which `foreach` follows. */
  type ImageMap = seq<ImageEntry>

  /** `processImages` is a stub: no image is fetched or uploaded, and the map
      read from the page's property is handed back as it is. */
  function ProcessImages(html: string, existing: ImageMap): ImageMap {
    existing
  }
}
