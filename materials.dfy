/**
 Textures and PBR materials: loadTextures and loadMaterials resolve each
 glTF texture reference to an image index, and the descriptor setup picks,
 for each material, the five images its fragment shader samples (base
 colour, metallic-roughness, normal, occlusion, emissive), falling back to
 default images for the two optional maps.
 */
module Materials {
  import opened GltfTypes

  /** The "no image" value of an optional image index. */
  const NoImage: int := -1

  /** A glTF texture, of which only the image it samples is kept. */
  datatype Texture = Texture(imageIndex: int)

  /** The glTF material fields the loader reads; a texture reference is -1 when absent. */
  datatype InputMaterial = InputMaterial(
    baseColorFactor: Vec4,
    baseColorTexture: int,
    metallicFactor: real,
    roughnessFactor: real,
    metallicRoughnessTexture: int,
    normalTexture: int,
    occlusionTexture: int,
    emissiveFactor: Vec3,
    emissiveTexture: int)

  /** A loaded material: factors and image indices (-1 when there is none). */
  datatype Material = Material(
    baseColorFactor: Vec4,
    baseColorImageIndex: int,
    metallicFactor: real,
    roughnessFactor: real,
    metallicRoughnessImageIndex: int,
    normalImageIndex: int,
    occlusionImageIndex: int,
    emissiveFactor: Vec3,
    emissiveImageIndex: int)

  /** What loadMaterials needs to index `textures` safely: the three mandatory references
      are read unconditionally, the two optional ones only when they are above -1. */
  predicate TextureRefsInRange(m: InputMaterial, textureCount: nat)
  {
    && 0 <= m.baseColorTexture < textureCount
    && 0 <= m.metallicRoughnessTexture < textureCount
    && 0 <= m.normalTexture < textureCount
    && (m.occlusionTexture > -1 ==> m.occlusionTexture < textureCount)
    && (m.emissiveTexture > -1 ==> m.emissiveTexture < textureCount)
  }

  /** The image index an optional texture reference resolves to. */
  function OptionalImage(textureRef: int, textures: seq<Texture>): int
    requires textureRef > -1 ==> textureRef < |textures|
  {
    if textureRef > -1 then textures[textureRef].imageIndex else NoImage
  }

  /** One iteration of loadMaterials: a value-initialised material whose fields are then
      filled from the glTF material through the texture table. */
  function ResolveMaterial(m: InputMaterial, textures: seq<Texture>): Material
    requires TextureRefsInRange(m, |textures|)
  {
    Material(
      m.baseColorFactor,
      textures[m.baseColorTexture].imageIndex,
      m.metallicFactor,
      m.roughnessFactor,
      textures[m.metallicRoughnessTexture].imageIndex,
      textures[m.normalTexture].imageIndex,
      OptionalImage(m.occlusionTexture, textures),
      m.emissiveFactor,
      OptionalImage(m.emissiveTexture, textures))
  }

  /** The image bound to one descriptor of a material's set. */
  datatype ImageSlot = ModelImage(image: nat) | DefaultOcclusion | DefaultEmissive

  /** The three runtime errors of the descriptor setup, in the order they are tested:
      "Cannot load image of Base Color Texture.", "... Metallic Roughness Texture.",
      "... Normal Texture." */
  datatype DescriptorError = MissingBaseColor | MissingMetallicRoughness | MissingNormal

  /** The five descriptors of one material's set, bindings 0 to 4, or the error thrown for it. */
  function SelectTextures(m: Material): (r: Result<seq<ImageSlot>, DescriptorError>)
    ensures r.Success? <==>
              m.baseColorImageIndex > -1 && m.metallicRoughnessImageIndex > -1 && m.normalImageIndex > -1
    ensures r == Failure(MissingBaseColor) <==> m.baseColorImageIndex <= -1
    ensures r == Failure(MissingMetallicRoughness) <==>
              m.baseColorImageIndex > -1 && m.metallicRoughnessImageIndex <= -1
    ensures r == Failure(MissingNormal) <==>
              m.baseColorImageIndex > -1 && m.metallicRoughnessImageIndex > -1 && m.normalImageIndex <= -1
    ensures r.Success? ==>
              && |r.value| == 5
              && r.value[0] == ModelImage(m.baseColorImageIndex)
              && r.value[1] == ModelImage(m.metallicRoughnessImageIndex)
              && r.value[2] == ModelImage(m.normalImageIndex)
              && (r.value[3] == DefaultOcclusion <==> m.occlusionImageIndex <= -1)
              && (r.value[3] != DefaultOcclusion ==> r.value[3] == ModelImage(m.occlusionImageIndex))
              && (r.value[4] == DefaultEmissive <==> m.emissiveImageIndex <= -1)
              && (r.value[4] != DefaultEmissive ==> r.value[4] == ModelImage(m.emissiveImageIndex))
  {
    if m.baseColorImageIndex <= -1 then Failure(MissingBaseColor)
    else if m.metallicRoughnessImageIndex <= -1 then Failure(MissingMetallicRoughness)
    else if m.normalImageIndex <= -1 then Failure(MissingNormal)
    else
      Success([
        ModelImage(m.baseColorImageIndex),
        ModelImage(m.metallicRoughnessImageIndex),
        ModelImage(m.normalImageIndex),
        if m.occlusionImageIndex > -1 then ModelImage(m.occlusionImageIndex) else DefaultOcclusion,
        if m.emissiveImageIndex > -1 then ModelImage(m.emissiveImageIndex) else DefaultEmissive])
  }

  /** From glTF material to descriptors: the set is written exactly when the three mandatory
      textures sample an image, and an absent optional map, or one whose texture has no
      image, falls back to the default image. */
  lemma DescriptorsOfLoadedMaterial(m: InputMaterial, textures: seq<Texture>)
    requires TextureRefsInRange(m, |textures|)
    ensures var r := SelectTextures(ResolveMaterial(m, textures));
            && (r.Success? <==>
                  && textures[m.baseColorTexture].imageIndex > -1
                  && textures[m.metallicRoughnessTexture].imageIndex > -1
                  && textures[m.normalTexture].imageIndex > -1)
            && (r.Success? ==>
                  (r.value[3] == DefaultOcclusion <==>
                     m.occlusionTexture <= -1 || textures[m.occlusionTexture].imageIndex <= -1))
            && (r.Success? ==>
                  (r.value[4] == DefaultEmissive <==>
                     m.emissiveTexture <= -1 || textures[m.emissiveTexture].imageIndex <= -1))
  {
  }

  /** Every image a written descriptor set names is an image the model loaded, provided
      every texture samples one of them or none. */
  lemma SelectedImagesExist(m: InputMaterial, textures: seq<Texture>, imageCount: nat)
    requires TextureRefsInRange(m, |textures|)
    requires forall t :: 0 <= t < |textures| ==> textures[t].imageIndex < imageCount
    ensures var r := SelectTextures(ResolveMaterial(m, textures));
            r.Success? ==> forall k :: 0 <= k < |r.value| && r.value[k].ModelImage? ==> r.value[k].image < imageCount
  {
    var r := SelectTextures(ResolveMaterial(m, textures));
    if r.Success? {
      forall k | 0 <= k < |r.value| && r.value[k].ModelImage?
        ensures r.value[k].image < imageCount
      {
        assert k == 0 || k == 1 || k == 2 || k == 3 || k == 4;
      }
    }
  }

  /** The descriptor loop over the materials: the sets written before an error is thrown,
      and the error, if any. */
  method SetupMaterialDescriptors(materials: seq<Material>)
    returns (written: seq<seq<ImageSlot>>, error: Option<DescriptorError>)
    ensures |written| <= |materials|
    ensures forall i :: 0 <= i < |written| ==> SelectTextures(materials[i]) == Success(written[i])
    ensures error.None? <==> |written| == |materials|
    ensures error.Some? ==> SelectTextures(materials[|written|]) == Failure(error.value)
  {
    written := [];
    for i := 0 to |materials|
      invariant |written| == i
      invariant forall j :: 0 <= j < i ==> SelectTextures(materials[j]) == Success(written[j])
    {
      var r := SelectTextures(materials[i]);
      if r.Failure? {
        return written, Some(r.error);
      }
      written := written + [r.value];
    }
    error := None;
  }
}
