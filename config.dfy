/** The two records the transformation consumes as inputs: the integration's
    resolved configuration (`AstroD2Config`) and one block's resolved metadata
    (`DiagramMeta`). Loading the configuration and parsing a block's annotation
    string are not part of this model; only the fields the core reads appear. */
module Config {
  import opened Wrappers

  /** `config.theme.dark`: a theme identifier, or `false` to switch the dark
      theme off. */
  datatype ConfigDarkTheme = DarkDisabled | DarkTheme(id: string)

  datatype ThemeConfig = ThemeConfig(defaultTheme: string, dark: ConfigDarkTheme)

  datatype AstroD2Config = AstroD2Config(
    output: string,         // directory of the generated diagrams under `public/`
    layout: string,         // layout engine passed to the renderer
    theme: ThemeConfig,
    skipGeneration: bool    // reuse artifacts of an earlier run instead of rendering
  )

  /** `meta.darkTheme`: absent, explicitly `false`, or a theme identifier. */
  datatype MetaDarkTheme = Unset | Disabled | Theme(id: string)

  datatype DiagramMeta = DiagramMeta(
    title: string,
    theme: Option<string>,
    darkTheme: MetaDarkTheme,
    sketch: bool,
    pad: nat,
    animateInterval: Option<nat>,
    target: Option<string>,
    width: Option<nat>,
    height: Option<nat>
  )
}
