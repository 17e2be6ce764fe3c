/**
 * The screen configuration object (config.h, and the older copy in main.cpp).
 *
 * In config.h the resolution is fixed by the constructor: there is no
 * mutator, and the public `w` and `h` are const pointers bound to the
 * private `width` and `height`, so reading through them always gives the
 * stored values. main.cpp's copy adds `setResolution`.
 */
module Settings {
  import opened Ticks

  // Width and height are C `uint`s, the same 32-bit unsigned type as the
  // clock readings, so they share `uint32`.

  const DefaultWidth: uint32 := 640
  const DefaultHeight: uint32 := 480

  /** `PIXL_Config` of config.h: a value that nothing changes once made. */
  datatype Config = Config(width: uint32, height: uint32) {

    /** `*w`: the width the configuration was made with. */
    function W(): uint32 {
      width
    }

    /** `*h`: the height the configuration was made with. */
    function H(): uint32 {
      height
    }
  }

  /** The constructor, with its default arguments. */
  function NewConfig(initialWidth: uint32 := DefaultWidth, initialHeight: uint32 := DefaultHeight): (c: Config)
    ensures c.W() == initialWidth && c.H() == initialHeight
  {
    Config(initialWidth, initialHeight)
  }

  /** With no arguments the configuration is 640 x 480. */
  lemma DefaultResolution()
    ensures NewConfig().W() == 640 && NewConfig().H() == 480
  {
  }

  /** `PIXL_Config` of main.cpp: the same object, whose resolution
      `setResolution` may replace. */
  class ResizableConfig {
    var config: Config

    constructor (initialWidth: uint32 := DefaultWidth, initialHeight: uint32 := DefaultHeight)
      ensures config.W() == initialWidth && config.H() == initialHeight
    {
      config := NewConfig(initialWidth, initialHeight);
    }

    /** Afterwards `*w` reads the new width and `*h` the new height. */
    method SetResolution(newWidth: uint32, newHeight: uint32)
      modifies this
      ensures config.W() == newWidth && config.H() == newHeight
    {
      config := Config(newWidth, newHeight);
    }
  }
}
